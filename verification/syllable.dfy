/** The Pekzep syllable grammar: onset, vowel nucleus, coda and tone, its parser,
    its canonical spelling and the alternate "rerrliratixka" spelling. */
module Rerrliratixka {
  import opened Wrappers

  datatype Tone = No | First | Second

  datatype Onset = P | B | M | C | S | X | Z | T | D | N | L | K | G | H | Zero

  datatype Vowel =
    | A | IA | UA | AI | UAI | AU | IAU | UAU
    | E | IE | UE | EI | IEI
    | O | IO | UO
    | I | UI | U | Y

  datatype Coda = P | T | K | M | N | Zero

  datatype Syllable = Syllable(onset: Onset, vowel: Vowel, coda: Coda, tone: Tone)

  function OnsetStr(o: Onset): string
  {
    match o
    case P => "p" case B => "b" case M => "m" case C => "c" case S => "s"
    case X => "x" case Z => "z" case T => "t" case D => "d" case N => "n"
    case L => "l" case K => "k" case G => "g" case H => "h" case Zero => ""
  }

  function VowelStr(v: Vowel): string
  {
    match v
    case A => "a" case IA => "ia" case UA => "ua" case AI => "ai"
    case UAI => "uai" case AU => "au" case IAU => "iau" case UAU => "uau"
    case E => "e" case IE => "ie" case UE => "ue" case EI => "ei" case IEI => "iei"
    case O => "o" case IO => "io" case UO => "uo"
    case I => "i" case UI => "ui" case U => "u" case Y => "y"
  }

  /** The nucleus spelling used by the alternate spelling for the first tone. */
  function FirstToneVowelStr(v: Vowel): string
  {
    match v
    case A => "ar" case IA => "iar" case UA => "uar" case AI => "ari"
    case UAI => "uari" case AU => "aru" case IAU => "iaru" case UAU => "uaru"
    case E => "er" case IE => "ier" case UE => "uer" case EI => "eri" case IEI => "ieri"
    case O => "or" case IO => "ior" case UO => "uor"
    case I => "ir" case UI => "uir" case U => "ur" case Y => "yr"
  }

  function CodaStr(c: Coda): string
  {
    match c
    case P => "p" case T => "t" case K => "k" case M => "m" case N => "n" case Zero => ""
  }

  function ToneDigit(t: Tone): string
  {
    match t
    case No => "" case First => "1" case Second => "2"
  }

  /** The canonical romanization of a syllable: onset, nucleus, coda, tone digit. Its
      last character names the tone, as the parser reads it. */
  function Spell(x: Syllable): (r: string)
    ensures |r| > 0
    ensures ToneOf(r[|r| - 1]) == x.tone
  {
    var o, v, c, t := OnsetStr(x.onset), VowelStr(x.vowel), CodaStr(x.coda), ToneDigit(x.tone);
    VowelStrShape(x.vowel);
    CodaShape(x.coda);
    ToneShape(x.tone);
    SpellPositions(o, v, c, t);
    o + v + c + t
  }

  // ---------------------------------------------------------------------------
  // Parsing

  /** Tone read from the last character: `1` First, `2` Second, anything else No. */
  function ToneOf(c: char): Tone
  {
    if c == '1' then First else if c == '2' then Second else No
  }

  /** Onset read from the first character; a vowel letter gives the Zero onset,
      any other character none at all. */
  function OnsetOf(c: char): Option<Onset>
  {
    match c
    case 'p' => Some(Onset.P) case 'b' => Some(Onset.B) case 'm' => Some(Onset.M)
    case 'c' => Some(Onset.C) case 's' => Some(Onset.S) case 'x' => Some(Onset.X)
    case 'z' => Some(Onset.Z) case 't' => Some(Onset.T) case 'd' => Some(Onset.D)
    case 'n' => Some(Onset.N) case 'l' => Some(Onset.L) case 'k' => Some(Onset.K)
    case 'g' => Some(Onset.G) case 'h' => Some(Onset.H)
    case 'a' => Some(Onset.Zero) case 'e' => Some(Onset.Zero) case 'i' => Some(Onset.Zero)
    case 'u' => Some(Onset.Zero) case 'o' => Some(Onset.Zero) case 'y' => Some(Onset.Zero)
    case _ => None
  }

  /** Coda read from the last character left after the tone digit is removed. */
  function CodaOf(c: char): Coda
  {
    match c
    case 'p' => Coda.P case 't' => Coda.T case 'k' => Coda.K
    case 'm' => Coda.M case 'n' => Coda.N case _ => Coda.Zero
  }

  /** The nucleus table: exactly the twenty listed spellings are nuclei. */
  function VowelOf(v: string): Option<Vowel>
  {
    match v
    case "a" => Some(A) case "ia" => Some(IA) case "ua" => Some(UA) case "ai" => Some(AI)
    case "uai" => Some(UAI) case "au" => Some(AU) case "iau" => Some(IAU) case "uau" => Some(UAU)
    case "e" => Some(E) case "ie" => Some(IE) case "ue" => Some(UE) case "ei" => Some(EI)
    case "iei" => Some(IEI) case "o" => Some(O) case "io" => Some(IO) case "uo" => Some(UO)
    case "i" => Some(I) case "ui" => Some(UI) case "u" => Some(U) case "y" => Some(Y)
    case _ => None
  }

  /** Where the nucleus-plus-coda part of `s` starts: after a consonant onset. */
  function BodyStart(s: string): nat
    requires |s| > 0
  {
    if OnsetOf(s[0]) == Some(Onset.Zero) then 0 else 1
  }

  /** Where the nucleus-plus-coda part of `s` ends: before a tone digit. */
  function BodyEnd(s: string): nat
    requires |s| > 0
  {
    if ToneOf(s[|s| - 1]) == No then |s| else |s| - 1
  }

  /** The inputs on which the parser does not index out of bounds: non-empty, and
      when the first character is an onset, something is left after onset and tone. */
  predicate ParseDefined(s: string)
  {
    |s| > 0 && (OnsetOf(s[0]).Some? ==> BodyStart(s) < BodyEnd(s))
  }

  /** `PekZepSyllable::parse`. */
  function Parse(s: string): (r: Option<Syllable>)
    requires ParseDefined(s)
    ensures OnsetOf(s[0]).None? ==> r.None?
    ensures r.Some? ==> r.value.tone == ToneOf(s[|s| - 1])
    ensures r.Some? ==> Spell(r.value) == s
  {
    var tone := ToneOf(s[|s| - 1]);
    match OnsetOf(s[0])
    case None => None
    case Some(onset) =>
      var body := s[BodyStart(s)..BodyEnd(s)];
      var coda := CodaOf(body[|body| - 1]);
      var nucleus := body[..|body| - (if coda == Coda.Zero then 0 else 1)];
      match VowelOf(nucleus)
      case None => None
      case Some(vowel) =>
        var x := Syllable(onset, vowel, coda, tone);
        VowelOfExact(nucleus);
        SpellOfParsed(s, x, body, nucleus);
        Some(x)
  }

  /** The pieces the parser recognised reassemble into its input. */
  lemma SpellOfParsed(s: string, x: Syllable, body: string, nucleus: string)
    requires |s| > 0
    requires OnsetOf(s[0]) == Some(x.onset) && x.tone == ToneOf(s[|s| - 1])
    requires BodyStart(s) < BodyEnd(s) && body == s[BodyStart(s)..BodyEnd(s)]
    requires x.coda == CodaOf(body[|body| - 1])
    requires nucleus == body[..|body| - (if x.coda == Coda.Zero then 0 else 1)]
    requires nucleus == VowelStr(x.vowel)
    ensures Spell(x) == s
  {
    var b, e := BodyStart(s), BodyEnd(s);
    var k := |nucleus|;
    OnsetPart(s, x.onset);
    TonePart(s, x.tone);
    CodaPart(body, x.coda, k);
    Reassemble(s, b, e, k);
  }

  lemma Reassemble(s: string, b: nat, e: nat, k: nat)
    requires b <= e <= |s| && k <= e - b
    ensures s == s[..b] + s[b..e][..k] + s[b..e][k..] + s[e..]
  {
    assert s[b..e] == s[b..e][..k] + s[b..e][k..];
    assert s == s[..b] + s[b..e] + s[e..];
  }

  lemma OnsetPart(s: string, o: Onset)
    requires |s| > 0 && OnsetOf(s[0]) == Some(o)
    ensures OnsetStr(o) == s[..BodyStart(s)]
  {
    OnsetInverse(s[0]);
  }

  lemma TonePart(s: string, t: Tone)
    requires |s| > 0 && ToneOf(s[|s| - 1]) == t
    ensures ToneDigit(t) == s[BodyEnd(s)..]
  {
    ToneInverse(s[|s| - 1]);
  }

  lemma CodaPart(body: string, c: Coda, k: nat)
    requires |body| > 0 && c == CodaOf(body[|body| - 1])
    requires k == |body| - (if c == Coda.Zero then 0 else 1)
    ensures CodaStr(c) == body[k..]
  {
    CodaInverse(body[|body| - 1]);
  }

  lemma OnsetInverse(ch: char)
    ensures OnsetOf(ch) == Some(Onset.Zero) ==> OnsetStr(Onset.Zero) == ""
    ensures OnsetOf(ch).Some? && OnsetOf(ch) != Some(Onset.Zero) ==> OnsetStr(OnsetOf(ch).value) == [ch]
  {
  }

  lemma ToneInverse(ch: char)
    ensures ToneOf(ch) == No ==> ToneDigit(ToneOf(ch)) == ""
    ensures ToneOf(ch) != No ==> ToneDigit(ToneOf(ch)) == [ch]
  {
  }

  lemma CodaInverse(ch: char)
    ensures CodaOf(ch) == Coda.Zero ==> CodaStr(CodaOf(ch)) == "" && ch !in "ptkmn"
    ensures CodaOf(ch) != Coda.Zero ==> CodaStr(CodaOf(ch)) == [ch] && ch in "ptkmn"
  {
  }

  /** The nucleus table is exact: a string is a nucleus iff it is one of the twenty spellings. */
  lemma VowelOfExact(v: string)
    ensures forall x :: VowelOf(v) == Some(x) <==> v == VowelStr(x)
  {
  }

  /** The external syllable parser used by the loaders and the aligners: the grammar above,
      rejecting (rather than crashing on) the inputs where `Parse` indexes out of bounds. */
  function ParseSyllable(s: string): (r: Option<Syllable>)
    ensures r.Some? ==> Spell(r.value) == s
  {
    if ParseDefined(s) then Parse(s) else None
  }

  // ---------------------------------------------------------------------------
  // Properties of the parser

  predicate IsVowelLetter(c: char)
  {
    c in "aeiouy"
  }

  lemma VowelStrShape(v: Vowel)
    ensures |VowelStr(v)| > 0
    ensures var n := VowelStr(v);
      && IsVowelLetter(n[0]) && IsVowelLetter(n[|n| - 1])
      && OnsetOf(n[0]) == Some(Onset.Zero) && CodaOf(n[|n| - 1]) == Coda.Zero && ToneOf(n[|n| - 1]) == No
  {
    match v
    case A => case IA => case UA => case AI => case UAI => case AU => case IAU => case UAU =>
    case E => case IE => case UE => case EI => case IEI => case O => case IO => case UO =>
    case I => case UI => case U => case Y =>
  }

  /** Spelling, then parsing, gives the syllable back, for every onset, nucleus, coda and tone. */
  lemma ParseSpell(x: Syllable)
    ensures ParseDefined(Spell(x))
    ensures Parse(Spell(x)) == Some(x)
  {
    SpellReadsEnds(x);
    SpellReadsBody(x);
    ParseFromParts(Spell(x), x);
  }

  /** A spelling starts with its onset's letter and ends with its tone's digit. */
  lemma SpellReadsEnds(x: Syllable)
    ensures var s := Spell(x);
      && ParseDefined(s) && OnsetOf(s[0]) == Some(x.onset) && ToneOf(s[|s| - 1]) == x.tone
      && BodyStart(s) == |OnsetStr(x.onset)| && BodyEnd(s) == |s| - |ToneDigit(x.tone)|
  {
    var o, v, c, t := OnsetStr(x.onset), VowelStr(x.vowel), CodaStr(x.coda), ToneDigit(x.tone);
    var s := Spell(x);
    VowelStrShape(x.vowel);
    OnsetShape(x.onset);
    CodaShape(x.coda);
    ToneShape(x.tone);
    SpellPositions(o, v, c, t);
    assert ToneOf(s[|s| - 1]) == x.tone;
    assert OnsetOf(s[0]) == Some(x.onset);
  }

  /** Between onset and tone, a spelling holds its nucleus and then its coda. */
  lemma SpellReadsBody(x: Syllable)
    requires var s := Spell(x);
      && BodyStart(s) == |OnsetStr(x.onset)| && BodyEnd(s) == |s| - |ToneDigit(x.tone)|
    ensures var s := Spell(x);
      var body := s[BodyStart(s)..BodyEnd(s)];
      && |body| > 0 && CodaOf(body[|body| - 1]) == x.coda
      && VowelOf(body[..|body| - (if x.coda == Coda.Zero then 0 else 1)]) == Some(x.vowel)
  {
    var o, v, c, t := OnsetStr(x.onset), VowelStr(x.vowel), CodaStr(x.coda), ToneDigit(x.tone);
    VowelStrShape(x.vowel);
    OnsetShape(x.onset);
    ToneShape(x.tone);
    BodyOfPieces(o, v, c, t, x.vowel, x.coda);
    assert Spell(x) == o + v + c + t;
  }

  /** `SpellReadsBody`, on the pieces a spelling is made of. */
  lemma BodyOfPieces(o: string, v: string, c: string, t: string, w: Vowel, k: Coda)
    requires |o| <= 1 && |t| <= 1 && v == VowelStr(w) && c == CodaStr(k)
    requires |v| > 0 && CodaOf(v[|v| - 1]) == Coda.Zero
    ensures var s := o + v + c + t;
      var body := s[|o|..|s| - |t|];
      && |body| > 0 && CodaOf(body[|body| - 1]) == k
      && VowelOf(body[..|body| - (if k == Coda.Zero then 0 else 1)]) == Some(w)
  {
    CodaShape(k);
    SpellPositions(o, v, c, t);
    var s := o + v + c + t;
    var body := s[|o|..|s| - |t|];
    assert body == v + c;
    assert CodaOf(body[|body| - 1]) == k;
    var nucleus := body[..|body| - (if k == Coda.Zero then 0 else 1)];
    assert nucleus == v;
    VowelOfExact(v);
  }

  /** The parser's result, given what it reads at each step. */
  lemma ParseFromParts(s: string, x: Syllable)
    requires ParseDefined(s)
    requires OnsetOf(s[0]) == Some(x.onset) && ToneOf(s[|s| - 1]) == x.tone
    requires var body := s[BodyStart(s)..BodyEnd(s)];
      && CodaOf(body[|body| - 1]) == x.coda
      && VowelOf(body[..|body| - (if x.coda == Coda.Zero then 0 else 1)]) == Some(x.vowel)
    ensures Parse(s) == Some(x)
  {
  }

  /** Where the pieces of a spelling sit in it. */
  lemma SpellPositions(o: string, v: string, c: string, t: string)
    requires |o| <= 1 && |v| > 0 && |c| <= 1 && |t| <= 1
    ensures var s := o + v + c + t;
      && s[0] == (if o == "" then v[0] else o[0])
      && s[|s| - 1] == LastOf(v, c, t)
      && s[|o|..|s| - |t|] == v + c
      && (v + c)[|v + c| - 1] == (if c == "" then v[|v| - 1] else c[0])
      && (v + c)[..|v|] == v
  {
    var s := o + v + c + t;
    assert s[|o|..|s| - |t|] == v + c;
  }

  /** The last character of a nucleus, coda and tone digit written one after the other. */
  function LastOf(v: string, c: string, t: string): char
    requires |v| > 0
  {
    if t != "" then t[|t| - 1] else if c != "" then c[|c| - 1] else v[|v| - 1]
  }

  lemma OnsetShape(o: Onset)
    ensures o == Onset.Zero <==> OnsetStr(o) == ""
    ensures o != Onset.Zero ==> |OnsetStr(o)| == 1 && OnsetOf(OnsetStr(o)[0]) == Some(o)
  {
  }

  lemma CodaShape(c: Coda)
    ensures c == Coda.Zero <==> CodaStr(c) == ""
    ensures c != Coda.Zero ==> |CodaStr(c)| == 1 && CodaOf(CodaStr(c)[0]) == c && ToneOf(CodaStr(c)[0]) == No
  {
  }

  lemma ToneShape(t: Tone)
    ensures t == No <==> ToneDigit(t) == ""
    ensures t != No ==> |ToneDigit(t)| == 1 && ToneOf(ToneDigit(t)[0]) == t
  {
  }

  /** A string is the spelling of a syllable exactly when the parser returns that syllable. */
  lemma ParseSyllableIff(s: string, x: Syllable)
    ensures ParseSyllable(s) == Some(x) <==> s == Spell(x)
  {
    if s == Spell(x) {
      ParseSpell(x);
    }
  }

  /** Tone rule: a trailing `1` or `2` sets the tone and is not part of the syllable body;
      any other last character gives the toneless reading and nothing is removed. */
  lemma ToneRule(s: string)
    requires ParseDefined(s) && Parse(s).Some?
    ensures s[|s| - 1] == '1' ==> Parse(s).value.tone == First
    ensures s[|s| - 1] == '2' ==> Parse(s).value.tone == Second
    ensures s[|s| - 1] !in "12" ==> Parse(s).value.tone == No && BodyEnd(s) == |s|
  {
  }

  /** Onset rule: a leading vowel letter gives the Zero onset and stays in the nucleus;
      a leading character that is neither a consonant onset nor a vowel letter is rejected. */
  lemma OnsetRule(s: string)
    requires ParseDefined(s)
    ensures IsVowelLetter(s[0]) && Parse(s).Some? ==>
              Parse(s).value.onset == Onset.Zero && VowelStr(Parse(s).value.vowel)[0] == s[0]
    ensures s[0] !in "pbmcsxztdnlkgh" && !IsVowelLetter(s[0]) ==> Parse(s).None?
  {
    OnsetOfClasses(s[0]);
    if IsVowelLetter(s[0]) && Parse(s).Some? {
      LeadingVowel(s, Parse(s).value);
    }
  }

  /** A syllable spelled with a leading vowel letter has the Zero onset. */
  lemma LeadingVowel(s: string, x: Syllable)
    requires |s| > 0 && IsVowelLetter(s[0]) && Spell(x) == s
    ensures x.onset == Onset.Zero && VowelStr(x.vowel)[0] == s[0]
  {
    OnsetOfClasses(s[0]);
    OnsetShape(x.onset);
    VowelStrShape(x.vowel);
    assert Spell(x) == OnsetStr(x.onset) + VowelStr(x.vowel) + (CodaStr(x.coda) + ToneDigit(x.tone));
  }

  lemma OnsetOfClasses(c: char)
    ensures IsVowelLetter(c) ==> OnsetOf(c) == Some(Onset.Zero)
    ensures c !in "pbmcsxztdnlkgh" && !IsVowelLetter(c) ==> OnsetOf(c).None?
  {
  }

  /** Coda rule: the coda is the last non-tone character when it is one of `p t k m n`,
      and Zero otherwise. */
  lemma CodaRule(s: string)
    requires ParseDefined(s) && Parse(s).Some?
    ensures var x := Parse(s).value;
      CodaOf(s[BodyEnd(s) - 1]) == x.coda && (x.coda == Coda.Zero <==> s[BodyEnd(s) - 1] !in "ptkmn")
  {
    var x := Parse(s).value;
    ParseSpell(x);
  }

  /** `xizi` is not a syllable: its nucleus `izi` is not in the table. */
  lemma XiziIsNotASyllable()
    ensures ParseDefined("xizi") && Parse("xizi") == None
  {
    var s := "xizi";
    assert OnsetOf(s[0]) == Some(Onset.X) && ToneOf(s[3]) == No;
    assert BodyStart(s) == 1 && BodyEnd(s) == 4;
    var body := s[1..4];
    assert body == "izi";
    assert CodaOf(body[2]) == Coda.Zero;
    assert body[..3] == "izi";
    VowelOfExact("izi");
  }

  /** Inputs on which the parser indexes out of bounds: the empty string and
      strings with nothing after the onset and tone. */
  lemma UndefinedInputs()
    ensures !ParseDefined("") && !ParseDefined("p") && !ParseDefined("k1")
  {
  }

  // ---------------------------------------------------------------------------
  // The alternate spelling

  /** No ASCII digit occurs in `s`. */
  predicate DigitFree(s: string)
  {
    forall i :: 0 <= i < |s| ==> !('0' <= s[i] <= '9')
  }

  lemma PiecesHaveNoDigitNorR(x: Syllable)
    ensures DigitFree(OnsetStr(x.onset)) && 'r' !in OnsetStr(x.onset)
    ensures DigitFree(VowelStr(x.vowel)) && 'r' !in VowelStr(x.vowel)
    ensures DigitFree(FirstToneVowelStr(x.vowel)) && 'r' in FirstToneVowelStr(x.vowel)
    ensures DigitFree(CodaStr(x.coda)) && 'r' !in CodaStr(x.coda)
  {
  }

  lemma DigitFreeConcat(a: string, b: string)
    requires DigitFree(a) && DigitFree(b)
    ensures DigitFree(a + b)
  {
  }

  /** `to_rerrliratixka`: the tone is written with letters instead of a digit, an `r` after
      the onset for the second tone and the first-tone nucleus spelling for the first tone. */
  function ToRerrliratixka(x: Syllable): (r: string)
    ensures DigitFree(r)
    ensures x.tone == No ==> r == Spell(x)
    ensures x.tone == Second ==>
      r == OnsetStr(x.onset) + "r" + Spell(x.(tone := No))[|OnsetStr(x.onset)|..]
    ensures x.tone == First ==> r == OnsetStr(x.onset) + FirstToneVowelStr(x.vowel) + CodaStr(x.coda)
    ensures 'r' in r <==> x.tone != No
  {
    RerrliratixkaDigitFree(x);
    RerrliratixkaShape(x);
    RerrliratixkaMarksTone(x);
    RerrPieces(x)
  }

  /** The alternate spelling, piece by piece. */
  function RerrPieces(x: Syllable): string
  {
    OnsetStr(x.onset) + (if x.tone == Second then "r" else "")
      + (if x.tone == First then FirstToneVowelStr(x.vowel) else VowelStr(x.vowel)) + CodaStr(x.coda)
  }

  lemma RerrliratixkaDigitFree(x: Syllable)
    ensures DigitFree(RerrPieces(x))
  {
    var o := OnsetStr(x.onset);
    var t := if x.tone == Second then "r" else "";
    var v := if x.tone == First then FirstToneVowelStr(x.vowel) else VowelStr(x.vowel);
    var c := CodaStr(x.coda);
    PiecesHaveNoDigitNorR(x);
    DigitFreeConcat(o, t);
    DigitFreeConcat(o + t, v);
    DigitFreeConcat(o + t + v, c);
  }

  lemma RerrliratixkaShape(x: Syllable)
    ensures x.tone == No ==> RerrPieces(x) == Spell(x)
    ensures x.tone == Second ==>
      RerrPieces(x) == OnsetStr(x.onset) + "r" + Spell(x.(tone := No))[|OnsetStr(x.onset)|..]
  {
    SecondToneShape(x);
    if x.tone == No {
      assert ToneDigit(x.tone) == "";
    }
  }

  lemma RerrliratixkaMarksTone(x: Syllable)
    ensures 'r' in RerrPieces(x) <==> x.tone != No
  {
    var o := OnsetStr(x.onset);
    var t := if x.tone == Second then "r" else "";
    var v := if x.tone == First then FirstToneVowelStr(x.vowel) else VowelStr(x.vowel);
    var c := CodaStr(x.coda);
    PiecesHaveNoDigitNorR(x);
    RMembership(o, t, v, c);
  }

  lemma SecondToneShape(x: Syllable)
    ensures Spell(x.(tone := No))[|OnsetStr(x.onset)|..] == VowelStr(x.vowel) + CodaStr(x.coda)
  {
    var o := OnsetStr(x.onset);
    assert Spell(x.(tone := No)) == o + (VowelStr(x.vowel) + CodaStr(x.coda));
  }

  lemma RMembership(o: string, t: string, v: string, c: string)
    ensures 'r' in o + t + v + c <==> 'r' in o || 'r' in t || 'r' in v || 'r' in c
  {
    assert forall ch :: ch in o + t + v + c <==> ch in o || ch in t || ch in v || ch in c;
  }

  /** Worked example: `kia1` is the first-tone syllable k + ia; its alternate spelling is `kiar`. */
  lemma ParseExample()
    ensures ParseDefined("kia1")
    ensures Parse("kia1") == Some(Syllable(Onset.K, IA, Coda.Zero, First))
    ensures ToRerrliratixka(Syllable(Onset.K, IA, Coda.Zero, First)) == "kiar"
  {
    var x := Syllable(Onset.K, IA, Coda.Zero, First);
    assert Spell(x) == "k" + "ia" + "" + "1" == "kia1";
    ParseSpell(x);
  }

  // ---------------------------------------------------------------------------
  // Reading the alternate spelling back

  /** The first-tone nucleus table, read backwards. */
  function FirstToneVowelOf(v: string): Option<Vowel>
  {
    match v
    case "ar" => Some(A) case "iar" => Some(IA) case "uar" => Some(UA) case "ari" => Some(AI)
    case "uari" => Some(UAI) case "aru" => Some(AU) case "iaru" => Some(IAU) case "uaru" => Some(UAU)
    case "er" => Some(E) case "ier" => Some(IE) case "uer" => Some(UE) case "eri" => Some(EI)
    case "ieri" => Some(IEI) case "or" => Some(O) case "ior" => Some(IO) case "uor" => Some(UO)
    case "ir" => Some(I) case "uir" => Some(UI) case "ur" => Some(U) case "yr" => Some(Y)
    case _ => None
  }

  lemma FirstToneVowelOfExact(v: string)
    ensures forall x :: FirstToneVowelOf(v) == Some(x) <==> v == FirstToneVowelStr(x)
  {
  }

  /** The first-tone nuclei start with a vowel letter, end in a letter that is no coda,
      and hold an `r`; the plain nuclei hold none. */
  lemma FirstToneVowelShape(v: Vowel)
    ensures var n := FirstToneVowelStr(v);
      && |n| > 1 && IsVowelLetter(n[0]) && CodaOf(n[|n| - 1]) == Coda.Zero && 'r' in n
    ensures 'r' !in VowelStr(v)
  {
    match v
    case A => case IA => case UA => case AI => case UAI => case AU => case IAU => case UAU =>
    case E => case IE => case UE => case EI => case IEI => case O => case IO => case UO =>
    case I => case UI => case U => case Y =>
  }

  /** Reads a syllable written in the alternate spelling: a consonant onset, then an `r`
      for the second tone, the nucleus (first-tone or plain), and the coda letter. */
  function ReadRerrliratixka(s: string): Option<Syllable>
  {
    if |s| == 0 then None
    else
      var consonant := OnsetOf(s[0]).Some? && OnsetOf(s[0]) != Some(Onset.Zero);
      var onset := if consonant then OnsetOf(s[0]).value else Onset.Zero;
      var rest := s[(if consonant then 1 else 0)..];
      if |rest| == 0 then None
      else
        var coda := CodaOf(rest[|rest| - 1]);
        var mid := rest[..|rest| - |CodaStr(coda)|];
        if |mid| > 0 && mid[0] == 'r' then
          match VowelOf(mid[1..])
          case Some(v) => Some(Syllable(onset, v, coda, Second))
          case None => None
        else match VowelOf(mid)
          case Some(v) => Some(Syllable(onset, v, coda, No))
          case None =>
            match FirstToneVowelOf(mid)
            case Some(v) => Some(Syllable(onset, v, coda, First))
            case None => None
  }

  /** Where the pieces of an alternate spelling sit in it. */
  lemma RerrPositions(o: string, t: string, v: string, c: string)
    requires |o| <= 1 && |t| <= 1 && |v| > 0 && |c| <= 1
    ensures var s := o + t + v + c;
      && s[0] == (if o == "" then (t + v)[0] else o[0])
      && s[|o|..] == t + v + c
      && (t + v + c)[|t + v + c| - 1] == (if c == "" then v[|v| - 1] else c[0])
      && (t + v + c)[..|t + v|] == t + v
      && (t + v)[0] == (if t == "" then v[0] else t[0])
      && (t + v)[|t|..] == v
  {
    var s := o + t + v + c;
    assert s == o + (t + v + c);
  }

  /** What `ReadRerrliratixka` returns, given what it reads at each step. */
  lemma ReadFromParts(s: string, x: Syllable)
    requires |s| > 0
    requires var consonant := OnsetOf(s[0]).Some? && OnsetOf(s[0]) != Some(Onset.Zero);
      && (consonant <==> x.onset != Onset.Zero)
      && (consonant ==> OnsetOf(s[0]) == Some(x.onset))
      && var rest := s[(if consonant then 1 else 0)..];
      && |rest| > 0 && CodaOf(rest[|rest| - 1]) == x.coda
      && |CodaStr(x.coda)| <= |rest|
      && var mid := rest[..|rest| - |CodaStr(x.coda)|];
      && (|mid| > 0 && mid[0] == 'r' <==> x.tone == Second)
      && (x.tone == Second ==> VowelOf(mid[1..]) == Some(x.vowel))
      && (x.tone == No ==> VowelOf(mid) == Some(x.vowel))
      && (x.tone == First ==> VowelOf(mid) == None && FirstToneVowelOf(mid) == Some(x.vowel))
    ensures ReadRerrliratixka(s) == Some(x)
  {
  }

  /** The alternate spelling from its pieces: an optional consonant, an optional `r`,
      a nucleus starting with a vowel letter and ending in no coda letter, an optional coda. */
  lemma RerrReadsPieces(o: string, t: string, v: string, c: string, x: Syllable)
    requires o == OnsetStr(x.onset) && c == CodaStr(x.coda)
    requires t == (if x.tone == Second then "r" else "")
    requires |v| > 0 && IsVowelLetter(v[0]) && CodaOf(v[|v| - 1]) == Coda.Zero
    ensures var s := o + t + v + c;
      var consonant := OnsetOf(s[0]).Some? && OnsetOf(s[0]) != Some(Onset.Zero);
      && (consonant <==> x.onset != Onset.Zero)
      && (consonant ==> OnsetOf(s[0]) == Some(x.onset))
      && var rest := s[(if consonant then 1 else 0)..];
      && rest == t + v + c
      && |rest| > 0 && CodaOf(rest[|rest| - 1]) == x.coda
      && |CodaStr(x.coda)| <= |rest|
      && rest[..|rest| - |CodaStr(x.coda)|] == t + v
      && (|t + v| > 0 && (t + v)[0] == 'r' <==> x.tone == Second)
      && (t + v)[|t|..] == v
  {
    OnsetShape(x.onset);
    CodaShape(x.coda);
    RerrPositions(o, t, v, c);
    OnsetOfClasses(v[0]);
    assert v[0] != 'r';
  }

  /** A first-tone nucleus is not a plain nucleus. */
  lemma FirstToneNotPlain(w: Vowel)
    ensures VowelOf(FirstToneVowelStr(w)) == None
  {
    var v := FirstToneVowelStr(w);
    VowelOfExact(v);
    FirstToneVowelShape(w);
    forall y | VowelOf(v) == Some(y)
      ensures false
    {
      FirstToneVowelShape(y);
    }
  }

  /** What the reader finds in the middle part `t + v` of an alternate spelling. */
  lemma RerrNucleus(t: string, v: string, x: Syllable)
    requires t == (if x.tone == Second then "r" else "")
    requires v == if x.tone == First then FirstToneVowelStr(x.vowel) else VowelStr(x.vowel)
    ensures (t + v)[|t|..] == v
    ensures x.tone == Second ==> VowelOf((t + v)[1..]) == Some(x.vowel)
    ensures x.tone == No ==> VowelOf(t + v) == Some(x.vowel)
    ensures x.tone == First ==> VowelOf(t + v) == None && FirstToneVowelOf(t + v) == Some(x.vowel)
  {
    assert (t + v)[|t|..] == v;
    if x.tone == First {
      FirstToneNotPlain(x.vowel);
      FirstToneVowelOfExact(v);
      assert t + v == v;
    } else {
      VowelOfExact(v);
      if x.tone == No {
        assert t + v == v;
      }
    }
  }

  /** Round trip: the alternate spelling reads back as the syllable it was written from. */
  lemma ReadToRerrliratixka(x: Syllable)
    ensures ReadRerrliratixka(ToRerrliratixka(x)) == Some(x)
  {
    ReadRerrPieces(x);
  }

  /** `ReadToRerrliratixka`, on the pieces the alternate spelling is made of. */
  lemma ReadRerrPieces(x: Syllable)
    ensures ReadRerrliratixka(RerrPieces(x)) == Some(x)
  {
    var o := OnsetStr(x.onset);
    var t := if x.tone == Second then "r" else "";
    var v := if x.tone == First then FirstToneVowelStr(x.vowel) else VowelStr(x.vowel);
    var c := CodaStr(x.coda);
    assert |v| > 0 && IsVowelLetter(v[0]) && CodaOf(v[|v| - 1]) == Coda.Zero by {
      VowelStrShape(x.vowel);
      FirstToneVowelShape(x.vowel);
    }
    RerrNucleus(t, v, x);
    ReadPieces(o, t, v, c, x);
    assert RerrPieces(x) == o + t + v + c;
  }

  /** The reader on an alternate spelling given by its pieces and what its nucleus reads as. */
  lemma ReadPieces(o: string, t: string, v: string, c: string, x: Syllable)
    requires o == OnsetStr(x.onset) && c == CodaStr(x.coda)
    requires t == (if x.tone == Second then "r" else "")
    requires |v| > 0 && IsVowelLetter(v[0]) && CodaOf(v[|v| - 1]) == Coda.Zero
    requires x.tone == Second ==> VowelOf((t + v)[1..]) == Some(x.vowel)
    requires x.tone == No ==> VowelOf(t + v) == Some(x.vowel)
    requires x.tone == First ==> VowelOf(t + v) == None && FirstToneVowelOf(t + v) == Some(x.vowel)
    ensures ReadRerrliratixka(o + t + v + c) == Some(x)
  {
    RerrReadsPieces(o, t, v, c, x);
    ReadFromParts(o + t + v + c, x);
  }

  /** Two syllables have the same alternate spelling only when they are the same syllable. */
  lemma RerrliratixkaInjective(x: Syllable, y: Syllable)
    ensures ToRerrliratixka(x) == ToRerrliratixka(y) <==> x == y
  {
    ReadToRerrliratixka(x);
    ReadToRerrliratixka(y);
  }
}
