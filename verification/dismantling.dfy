/** How a linzklar glyph is dismantled into components: an Ideographic Description
    Sequence (prefix notation with the binary operators U+2FF0..U+2FFB except the two
    trinary ones) extended with two unary operators, explosion and rotation. */
module Dismantling {
  import opened Wrappers
  import opened Collections

  datatype UnaryOperator = Rotation | Explosion

  /** The source keeps only one binary and one trinary operator value: which of the
      description characters was written is forgotten. */
  datatype BinaryOperator = BinaryUnit
  datatype TrinaryOperator = TrinaryUnit

  datatype Tree =
    | Leaf(glyph: char)
    | Unary(unary: UnaryOperator, operand: Tree)
    | Binary(binary: BinaryOperator, left: Tree, right: Tree)
    | Trinary(trinary: TrinaryOperator, first: Tree, second: Tree, third: Tree)

  const ExplosionChar: char := '\U{1F4A5}'
  const RotationChar: char := '\U{21BA}'

  predicate IsTrinaryChar(c: char)
  {
    c == '\U{2FF2}' || c == '\U{2FF3}'
  }

  predicate IsBinaryChar(c: char)
  {
    '\U{2FF0}' <= c <= '\U{2FFB}' && !IsTrinaryChar(c)
  }

  /** Characters the parser reads as operators rather than as glyphs. */
  predicate IsOperatorChar(c: char)
  {
    c == ExplosionChar || c == RotationChar || IsTrinaryChar(c) || IsBinaryChar(c)
  }

  /** Why a description does not parse. */
  datatype IdsError =
    | NothingToApply(unaryChar: char)
    | TooFewForTrinary(trinaryChar: char)
    | TooFewForBinary(binaryChar: char)
    | NotLinzklar(rejected: char)
    | StackNotSingle(height: nat)

  /** How many trees an operator character takes off the stack; a glyph takes none. */
  function Arity(c: char): nat
  {
    if c == ExplosionChar || c == RotationChar then 1
    else if IsTrinaryChar(c) then 3
    else if IsBinaryChar(c) then 2
    else 0
  }

  /** The operands all the characters of `s` take, added up. */
  function OperandsTaken(s: string): nat
  {
    if |s| == 0 then 0 else Arity(s[0]) + OperandsTaken(s[1..])
  }

  /** One step of the parser, reading `c` with the stack `st` (top last). A unary
      operator wraps the top; a trinary one pops three trees and a binary one two, the
      first tree popped becoming the leftmost operand; anything else is pushed as a glyph
      when `isLinzklar` accepts it. `rotated` is the operator that `↺` builds. */
  function Step(st: seq<Tree>, c: char, isLinzklar: char -> bool, rotated: UnaryOperator): (r: Result<seq<Tree>, IdsError>)
    ensures r.Err? <==> |st| < Arity(c) || (Arity(c) == 0 && !isLinzklar(c))
    ensures r.Err? && r.error.NotLinzklar? ==> !IsOperatorChar(c) && !isLinzklar(c)
    ensures r.Ok? ==> |r.value| == |st| - Arity(c) + 1
  {
    var n := |st|;
    if c == ExplosionChar || c == RotationChar then
      if n == 0 then Err(NothingToApply(c))
      else Ok(st[..n - 1] + [Unary(if c == ExplosionChar then Explosion else rotated, st[n - 1])])
    else if IsTrinaryChar(c) then
      if n < 3 then Err(TooFewForTrinary(c))
      else Ok(st[..n - 3] + [Trinary(TrinaryUnit, st[n - 1], st[n - 2], st[n - 3])])
    else if IsBinaryChar(c) then
      if n < 2 then Err(TooFewForBinary(c))
      else Ok(st[..n - 2] + [Binary(BinaryUnit, st[n - 1], st[n - 2])])
    else if isLinzklar(c) then Ok(st + [Leaf(c)])
    else Err(NotLinzklar(c))
  }

  /** The stack after reading `input` from its last character to its first; the first
      failing step (from the back) decides the error. */
  function StackAfter(input: string, isLinzklar: char -> bool, rotated: UnaryOperator): (r: Result<seq<Tree>, IdsError>)
  {
    if |input| == 0 then Ok([])
    else
      match StackAfter(input[1..], isLinzklar, rotated)
      case Err(e) => Err(e)
      case Ok(st) => Step(st, input[0], isLinzklar, rotated)
  }

  /** `DismantlingTree::parse` with `↺` building `rotated`: the single tree left on the
      stack, or an error. */
  function ParseWith(input: string, isLinzklar: char -> bool, rotated: UnaryOperator): (r: Result<Tree, IdsError>)
    ensures r.Ok? ==> StackAfter(input, isLinzklar, rotated) == Ok([r.value])
    ensures StackAfter(input, isLinzklar, rotated).Ok? && |StackAfter(input, isLinzklar, rotated).value| != 1 ==>
      r == Err(StackNotSingle(|StackAfter(input, isLinzklar, rotated).value|))
  {
    match StackAfter(input, isLinzklar, rotated)
    case Err(e) => Err(e)
    case Ok(st) =>
      if |st| != 1 then Err(StackNotSingle(|st|))
      else
        assert st == [st[0]];
        Ok(st[0])
  }

  /** The parser as written: `↺` builds an explosion, just as `💥` does. */
  function ParseAsWritten(input: string, isLinzklar: char -> bool): (r: Result<Tree, IdsError>)
    ensures r.Ok? ==> OperandsTaken(input) + 1 == |input|
    ensures r.Ok? ==> LeavesAdmitted(r.value, isLinzklar)
    ensures r.Ok? ==> RotationFree(r.value)
  {
    StackHeight(input, isLinzklar, Explosion);
    StackLeavesAdmitted(input, isLinzklar, Explosion);
    StackRotationFree(input, isLinzklar);
    ParseWith(input, isLinzklar, Explosion)
  }

  /** The parser with `↺` building the rotation its operator type provides for. */
  function Parse(input: string, isLinzklar: char -> bool): (r: Result<Tree, IdsError>)
    ensures r.Ok? ==> OperandsTaken(input) + 1 == |input|
    ensures r.Ok? ==> LeavesAdmitted(r.value, isLinzklar)
  {
    StackHeight(input, isLinzklar, Rotation);
    StackLeavesAdmitted(input, isLinzklar, Rotation);
    ParseWith(input, isLinzklar, Rotation)
  }

  // ---------------------------------------------------------------------------------
  // Writing a tree back out
  // ---------------------------------------------------------------------------------

  function UnaryChar(op: UnaryOperator): char
  {
    match op
    case Explosion => ExplosionChar
    case Rotation => RotationChar
  }

  /** A tree in prefix notation, with `⿰` for every binary and `⿲` for every trinary node. */
  function ToIds(t: Tree): string
  {
    match t
    case Leaf(c) => [c]
    case Unary(op, a) => [UnaryChar(op)] + ToIds(a)
    case Binary(_, l, r) => ['\U{2FF0}'] + ToIds(l) + ToIds(r)
    case Trinary(_, a, b, c) => ['\U{2FF2}'] + ToIds(a) + ToIds(b) + ToIds(c)
  }

  /** Every glyph of the tree is a linzklar and none is an operator character. */
  predicate LeavesAdmitted(t: Tree, isLinzklar: char -> bool)
  {
    match t
    case Leaf(c) => isLinzklar(c) && !IsOperatorChar(c)
    case Unary(_, a) => LeavesAdmitted(a, isLinzklar)
    case Binary(_, l, r) => LeavesAdmitted(l, isLinzklar) && LeavesAdmitted(r, isLinzklar)
    case Trinary(_, a, b, c) => LeavesAdmitted(a, isLinzklar) && LeavesAdmitted(b, isLinzklar) && LeavesAdmitted(c, isLinzklar)
  }

  /** No rotation node occurs in the tree. */
  predicate RotationFree(t: Tree)
  {
    match t
    case Leaf(_) => true
    case Unary(op, a) => op == Explosion && RotationFree(a)
    case Binary(_, l, r) => RotationFree(l) && RotationFree(r)
    case Trinary(_, a, b, c) => RotationFree(a) && RotationFree(b) && RotationFree(c)
  }

  /** The character the parser's result writes back for `c`: every binary operator
      becomes `⿰`, every trinary one `⿲`, `↺` the character of `rotated`. */
  function Canonical(c: char, rotated: UnaryOperator): char
  {
    if c == RotationChar then UnaryChar(rotated)
    else if IsTrinaryChar(c) then '\U{2FF2}'
    else if IsBinaryChar(c) then '\U{2FF0}'
    else c
  }

  function CanonicalIds(s: string, rotated: UnaryOperator): (r: string)
    ensures |r| == |s|
  {
    if |s| == 0 then [] else [Canonical(s[0], rotated)] + CanonicalIds(s[1..], rotated)
  }

  /** The stack written out from its top down. */
  function SpellStack(st: seq<Tree>): string
  {
    if |st| == 0 then [] else ToIds(st[|st| - 1]) + SpellStack(st[..|st| - 1])
  }

  /** Reading a tree's description on top of any stack pushes exactly that tree. */
  lemma {:induction false} StackAfterToIds(t: Tree, s: string, isLinzklar: char -> bool, rotated: UnaryOperator)
    requires LeavesAdmitted(t, isLinzklar)
    requires rotated == Explosion ==> RotationFree(t)
    requires StackAfter(s, isLinzklar, rotated).Ok?
    ensures StackAfter(ToIds(t) + s, isLinzklar, rotated) == Ok(StackAfter(s, isLinzklar, rotated).value + [t])
    decreases t
  {
    var st := StackAfter(s, isLinzklar, rotated).value;
    match t
    case Leaf(c) =>
      ReadOne(c, s, isLinzklar, rotated);
    case Unary(op, a) =>
      StackAfterToIds(a, s, isLinzklar, rotated);
      PushUnary(op, a, s, st, isLinzklar, rotated);
    case Binary(op, l, r) =>
      StackAfterToIds(r, s, isLinzklar, rotated);
      StackAfterToIds(l, ToIds(r) + s, isLinzklar, rotated);
      PushBinary(op, l, r, s, st, isLinzklar, rotated);
    case Trinary(op, a, b, c) =>
      StackAfterToIds(c, s, isLinzklar, rotated);
      StackAfterToIds(b, ToIds(c) + s, isLinzklar, rotated);
      StackAfterToIds(a, ToIds(b) + (ToIds(c) + s), isLinzklar, rotated);
      PushTrinary(op, a, b, c, s, st, isLinzklar, rotated);
  }

  /** The unary case of `StackAfterToIds`, from the case for the operand. */
  lemma PushUnary(op: UnaryOperator, a: Tree, s: string, st: seq<Tree>, isLinzklar: char -> bool, rotated: UnaryOperator)
    requires rotated == Explosion ==> op == Explosion
    requires StackAfter(ToIds(a) + s, isLinzklar, rotated) == Ok(st + [a])
    ensures StackAfter(ToIds(Unary(op, a)) + s, isLinzklar, rotated) == Ok(st + [Unary(op, a)])
  {
    var w := ToIds(a) + s;
    assert ToIds(Unary(op, a)) + s == [UnaryChar(op)] + w;
    ReadOne(UnaryChar(op), w, isLinzklar, rotated);
    StepUnary(st, a, op, isLinzklar, rotated);
  }

  /** The binary case of `StackAfterToIds`, from the cases for the operands. */
  lemma PushBinary(op: BinaryOperator, l: Tree, r: Tree, s: string, st: seq<Tree>, isLinzklar: char -> bool, rotated: UnaryOperator)
    requires StackAfter(ToIds(r) + s, isLinzklar, rotated) == Ok(st + [r])
    requires StackAfter(ToIds(l) + (ToIds(r) + s), isLinzklar, rotated) == Ok(st + [r] + [l])
    ensures StackAfter(ToIds(Binary(op, l, r)) + s, isLinzklar, rotated) == Ok(st + [Binary(op, l, r)])
  {
    var w := ToIds(l) + (ToIds(r) + s);
    assert ToIds(Binary(op, l, r)) == ['\U{2FF0}'] + ToIds(l) + ToIds(r);
    PrefixRegroup('\U{2FF0}', ToIds(l), ToIds(r), s);
    ReadOne('\U{2FF0}', w, isLinzklar, rotated);
    StepBinary(st, l, r, isLinzklar, rotated);
  }

  /** The trinary case of `StackAfterToIds`, from the cases for the operands. */
  lemma PushTrinary(op: TrinaryOperator, a: Tree, b: Tree, c: Tree, s: string, st: seq<Tree>, isLinzklar: char -> bool, rotated: UnaryOperator)
    requires StackAfter(ToIds(a) + (ToIds(b) + (ToIds(c) + s)), isLinzklar, rotated) == Ok(st + [c] + [b] + [a])
    ensures StackAfter(ToIds(Trinary(op, a, b, c)) + s, isLinzklar, rotated) == Ok(st + [Trinary(op, a, b, c)])
  {
    var w := ToIds(a) + (ToIds(b) + (ToIds(c) + s));
    assert ToIds(Trinary(op, a, b, c)) == ['\U{2FF2}'] + ToIds(a) + ToIds(b) + ToIds(c);
    PrefixRegroup('\U{2FF2}', ToIds(a), ToIds(b), ToIds(c) + s);
    assert ['\U{2FF2}'] + ToIds(a) + ToIds(b) + ToIds(c) + s == ['\U{2FF2}'] + ToIds(a) + ToIds(b) + (ToIds(c) + s);
    ReadOne('\U{2FF2}', w, isLinzklar, rotated);
    StepTrinary(st, a, b, c, isLinzklar, rotated);
  }

  lemma PrefixRegroup(c: char, a: string, b: string, s: string)
    ensures [c] + a + b + s == [c] + (a + (b + s))
  {
  }

  /** Reading one more character in front applies one step to the stack read so far. */
  lemma ReadOne(c: char, w: string, isLinzklar: char -> bool, rotated: UnaryOperator)
    requires StackAfter(w, isLinzklar, rotated).Ok?
    ensures StackAfter([c] + w, isLinzklar, rotated) == Step(StackAfter(w, isLinzklar, rotated).value, c, isLinzklar, rotated)
  {
    assert ([c] + w)[1..] == w;
  }

  lemma StepUnary(st: seq<Tree>, a: Tree, op: UnaryOperator, isLinzklar: char -> bool, rotated: UnaryOperator)
    requires rotated == Explosion ==> op == Explosion
    ensures Step(st + [a], UnaryChar(op), isLinzklar, rotated) == Ok(st + [Unary(op, a)])
  {
    var st1 := st + [a];
    assert st1[..|st1| - 1] == st;
  }

  lemma StepBinary(st: seq<Tree>, l: Tree, r: Tree, isLinzklar: char -> bool, rotated: UnaryOperator)
    ensures Step(st + [r] + [l], '\U{2FF0}', isLinzklar, rotated) == Ok(st + [Binary(BinaryUnit, l, r)])
  {
    var st2 := st + [r] + [l];
    assert st2[..|st2| - 2] == st;
  }

  lemma StepTrinary(st: seq<Tree>, a: Tree, b: Tree, c: Tree, isLinzklar: char -> bool, rotated: UnaryOperator)
    ensures Step(st + [c] + [b] + [a], '\U{2FF2}', isLinzklar, rotated) == Ok(st + [Trinary(TrinaryUnit, a, b, c)])
  {
    var st3 := st + [c] + [b] + [a];
    assert st3[..|st3| - 3] == st;
  }

  /** Round trip: the parser reads back every tree written out, when its glyphs are
      linzklar and, for the parser as written, when it has no rotation. */
  lemma ParseToIds(t: Tree, isLinzklar: char -> bool, rotated: UnaryOperator)
    requires LeavesAdmitted(t, isLinzklar)
    requires rotated == Explosion ==> RotationFree(t)
    ensures ParseWith(ToIds(t), isLinzklar, rotated) == Ok(t)
  {
    StackAfterToIds(t, [], isLinzklar, rotated);
    assert ToIds(t) + [] == ToIds(t);
  }

  /** Writing the stack after any successful read spells the input with canonical
      operator characters. */
  lemma {:induction false} SpellStackAfter(s: string, isLinzklar: char -> bool, rotated: UnaryOperator)
    requires StackAfter(s, isLinzklar, rotated).Ok?
    ensures SpellStack(StackAfter(s, isLinzklar, rotated).value) == CanonicalIds(s, rotated)
  {
    if |s| > 0 {
      SpellStackAfter(s[1..], isLinzklar, rotated);
      SpellStep(StackAfter(s[1..], isLinzklar, rotated).value, s[0], isLinzklar, rotated);
    }
  }

  /** The step of `SpellStackAfter`: a successful step prepends the canonical character. */
  lemma SpellStep(st: seq<Tree>, c: char, isLinzklar: char -> bool, rotated: UnaryOperator)
    requires Step(st, c, isLinzklar, rotated).Ok?
    ensures SpellStack(Step(st, c, isLinzklar, rotated).value) == [Canonical(c, rotated)] + SpellStack(st)
  {
    if c == ExplosionChar || c == RotationChar {
      SpellStepUnary(st, c, isLinzklar, rotated);
    } else if IsTrinaryChar(c) {
      SpellStepTrinary(st, c, isLinzklar, rotated);
    } else if IsBinaryChar(c) {
      SpellStepBinary(st, c, isLinzklar, rotated);
    } else {
      assert Step(st, c, isLinzklar, rotated).value == st + [Leaf(c)];
      SpellPush(st, Leaf(c));
    }
  }

  lemma SpellStepUnary(st: seq<Tree>, c: char, isLinzklar: char -> bool, rotated: UnaryOperator)
    requires c == ExplosionChar || c == RotationChar
    requires Step(st, c, isLinzklar, rotated).Ok?
    ensures SpellStack(Step(st, c, isLinzklar, rotated).value) == [Canonical(c, rotated)] + SpellStack(st)
  {
    var n := |st|;
    var op := if c == ExplosionChar then Explosion else rotated;
    assert Step(st, c, isLinzklar, rotated).value == st[..n - 1] + [Unary(op, st[n - 1])];
    assert st == st[..n - 1] + [st[n - 1]];
    assert Canonical(c, rotated) == UnaryChar(op);
    SpellUnary(st[..n - 1], st[n - 1], op);
  }

  lemma SpellStepBinary(st: seq<Tree>, c: char, isLinzklar: char -> bool, rotated: UnaryOperator)
    requires c != ExplosionChar && c != RotationChar && !IsTrinaryChar(c) && IsBinaryChar(c)
    requires Step(st, c, isLinzklar, rotated).Ok?
    ensures SpellStack(Step(st, c, isLinzklar, rotated).value) == [Canonical(c, rotated)] + SpellStack(st)
  {
    var n := |st|;
    assert Step(st, c, isLinzklar, rotated).value == st[..n - 2] + [Binary(BinaryUnit, st[n - 1], st[n - 2])];
    assert st == st[..n - 2] + [st[n - 2]] + [st[n - 1]];
    assert Canonical(c, rotated) == '\U{2FF0}';
    SpellBinary(st[..n - 2], st[n - 1], st[n - 2]);
  }

  lemma SpellStepTrinary(st: seq<Tree>, c: char, isLinzklar: char -> bool, rotated: UnaryOperator)
    requires c != ExplosionChar && c != RotationChar && IsTrinaryChar(c)
    requires Step(st, c, isLinzklar, rotated).Ok?
    ensures SpellStack(Step(st, c, isLinzklar, rotated).value) == [Canonical(c, rotated)] + SpellStack(st)
  {
    var n := |st|;
    assert Step(st, c, isLinzklar, rotated).value == st[..n - 3] + [Trinary(TrinaryUnit, st[n - 1], st[n - 2], st[n - 3])];
    assert st == st[..n - 3] + [st[n - 3]] + [st[n - 2]] + [st[n - 1]];
    assert Canonical(c, rotated) == '\U{2FF2}';
    SpellTrinary(st[..n - 3], st[n - 1], st[n - 2], st[n - 3]);
  }

  /** Pushing a tree puts its description in front of the stack's. */
  lemma SpellPush(st: seq<Tree>, x: Tree)
    ensures SpellStack(st + [x]) == ToIds(x) + SpellStack(st)
  {
    assert (st + [x])[..|st|] == st;
  }

  lemma SpellUnary(init: seq<Tree>, a: Tree, op: UnaryOperator)
    ensures SpellStack(init + [Unary(op, a)]) == [UnaryChar(op)] + SpellStack(init + [a])
  {
    SpellPush(init, a);
    SpellPush(init, Unary(op, a));
  }

  lemma SpellBinary(init: seq<Tree>, l: Tree, r: Tree)
    ensures SpellStack(init + [Binary(BinaryUnit, l, r)]) == ['\U{2FF0}'] + SpellStack(init + [r] + [l])
  {
    SpellPush(init, Binary(BinaryUnit, l, r));
    SpellPush(init, r);
    SpellPush(init + [r], l);
  }

  lemma SpellTrinary(init: seq<Tree>, a: Tree, b: Tree, c: Tree)
    ensures SpellStack(init + [Trinary(TrinaryUnit, a, b, c)]) == ['\U{2FF2}'] + SpellStack(init + [c] + [b] + [a])
  {
    SpellPush(init, Trinary(TrinaryUnit, a, b, c));
    SpellPush(init, c);
    SpellPush(init + [c], b);
    SpellPush(init + [c] + [b], a);
  }

  /** The converse of the round trip: whatever the parser returns writes back as the
      input, up to the choice of operator characters. */
  lemma ToIdsParse(s: string, isLinzklar: char -> bool, rotated: UnaryOperator)
    requires ParseWith(s, isLinzklar, rotated).Ok?
    ensures ToIds(ParseWith(s, isLinzklar, rotated).value) == CanonicalIds(s, rotated)
  {
    SpellStackAfter(s, isLinzklar, rotated);
    var t := ParseWith(s, isLinzklar, rotated).value;
    assert SpellStack([t]) == ToIds(t) + SpellStack([]);
  }

  /** With the corrected rotation, two descriptions parse to the same tree only when they
      differ in nothing but the choice of binary or trinary operator character. */
  lemma ParseDistinguishes(s1: string, s2: string, isLinzklar: char -> bool)
    requires Parse(s1, isLinzklar).Ok? && Parse(s2, isLinzklar).Ok?
    requires Parse(s1, isLinzklar) == Parse(s2, isLinzklar)
    ensures CanonicalIds(s1, Rotation) == CanonicalIds(s2, Rotation)
  {
    ToIdsParse(s1, isLinzklar, Rotation);
    ToIdsParse(s2, isLinzklar, Rotation);
  }

  /** As written, `↺x` and `💥x` parse to the same tree, so a rotation never survives. */
  lemma RotationLostAsWritten(x: char, isLinzklar: char -> bool)
    requires isLinzklar(x) && !IsOperatorChar(x)
    ensures ParseAsWritten([RotationChar, x], isLinzklar) == Ok(Unary(Explosion, Leaf(x)))
    ensures ParseAsWritten([ExplosionChar, x], isLinzklar) == Ok(Unary(Explosion, Leaf(x)))
    ensures Parse([RotationChar, x], isLinzklar) == Ok(Unary(Rotation, Leaf(x)))
  {
    ParseToIds(Unary(Explosion, Leaf(x)), isLinzklar, Explosion);
    ParseToIds(Unary(Rotation, Leaf(x)), isLinzklar, Rotation);
    assert [RotationChar, x][1..] == [x];
    assert [ExplosionChar, x] == ToIds(Unary(Explosion, Leaf(x)));
  }

  /** Each character read leaves one tree more on the stack than the operands it takes. */
  lemma {:induction false} StackHeight(s: string, isLinzklar: char -> bool, rotated: UnaryOperator)
    ensures StackAfter(s, isLinzklar, rotated).Ok? ==>
      |StackAfter(s, isLinzklar, rotated).value| + OperandsTaken(s) == |s|
  {
    if |s| > 0 {
      StackHeight(s[1..], isLinzklar, rotated);
    }
  }

  /** Every tree on the stack after a successful read has only linzklar glyphs. */
  lemma {:induction false} StackLeavesAdmitted(s: string, isLinzklar: char -> bool, rotated: UnaryOperator)
    ensures StackAfter(s, isLinzklar, rotated).Ok? ==> forall i :: 0 <= i < |StackAfter(s, isLinzklar, rotated).value| ==>
      LeavesAdmitted(StackAfter(s, isLinzklar, rotated).value[i], isLinzklar)
  {
    if |s| > 0 {
      StackLeavesAdmitted(s[1..], isLinzklar, rotated);
      if StackAfter(s[1..], isLinzklar, rotated).Ok? {
        StepLeavesAdmitted(StackAfter(s[1..], isLinzklar, rotated).value, s[0], isLinzklar, rotated);
      }
    }
  }

  /** The step of `StackLeavesAdmitted`. */
  lemma StepLeavesAdmitted(st: seq<Tree>, c: char, isLinzklar: char -> bool, rotated: UnaryOperator)
    requires forall i :: 0 <= i < |st| ==> LeavesAdmitted(st[i], isLinzklar)
    ensures Step(st, c, isLinzklar, rotated).Ok? ==> forall i :: 0 <= i < |Step(st, c, isLinzklar, rotated).value| ==>
      LeavesAdmitted(Step(st, c, isLinzklar, rotated).value[i], isLinzklar)
  {
  }

  /** With `↺` building an explosion, no tree on the stack ever holds a rotation. */
  lemma {:induction false} StackRotationFree(s: string, isLinzklar: char -> bool)
    ensures StackAfter(s, isLinzklar, Explosion).Ok? ==> forall i :: 0 <= i < |StackAfter(s, isLinzklar, Explosion).value| ==>
      RotationFree(StackAfter(s, isLinzklar, Explosion).value[i])
  {
    if |s| > 0 {
      StackRotationFree(s[1..], isLinzklar);
      if StackAfter(s[1..], isLinzklar, Explosion).Ok? {
        StepRotationFree(StackAfter(s[1..], isLinzklar, Explosion).value, s[0], isLinzklar);
      }
    }
  }

  /** The step of `StackRotationFree`. */
  lemma StepRotationFree(st: seq<Tree>, c: char, isLinzklar: char -> bool)
    requires forall i :: 0 <= i < |st| ==> RotationFree(st[i])
    ensures Step(st, c, isLinzklar, Explosion).Ok? ==> forall i :: 0 <= i < |Step(st, c, isLinzklar, Explosion).value| ==>
      RotationFree(Step(st, c, isLinzklar, Explosion).value[i])
  {
  }

  // ---------------------------------------------------------------------------------
  // The table
  // ---------------------------------------------------------------------------------

  /** One row of the dismantling table: a linzklar and its description or `FALSE`. */
  datatype DismantlingRecord = DismantlingRecord(linzklar: string, dismantling: string)

  datatype RecordError = NotOneLinzklar(text: string) | Unparsable(error: IdsError)

  /** `Linzklar::from_str`: exactly one character, accepted as a linzklar. */
  function OneLinzklar(s: string, isLinzklar: char -> bool): (r: Result<char, RecordError>)
    ensures r.Ok? <==> |s| == 1 && isLinzklar(s[0])
    ensures r.Ok? ==> s == [r.value]
  {
    if |s| == 1 && isLinzklar(s[0]) then Ok(s[0]) else Err(NotOneLinzklar(s))
  }

  /** `convert`: `FALSE` leaves the glyph whole; anything else must parse. */
  function Convert(record: DismantlingRecord, isLinzklar: char -> bool): (r: Result<(char, Tree), RecordError>)
    ensures r.Ok? ==> [r.value.0] == record.linzklar
    ensures r.Ok? && record.dismantling == "FALSE" ==> r.value.1 == Leaf(r.value.0)
    ensures r.Ok? && record.dismantling != "FALSE" ==> Parse(record.dismantling, isLinzklar) == Ok(r.value.1)
    ensures OneLinzklar(record.linzklar, isLinzklar).Ok? ==>
      (r.Ok? <==> record.dismantling == "FALSE" || Parse(record.dismantling, isLinzklar).Ok?)
  {
    match OneLinzklar(record.linzklar, isLinzklar)
    case Err(e) => Err(e)
    case Ok(lin) =>
      if record.dismantling == "FALSE" then Ok((lin, Leaf(lin)))
      else
        match Parse(record.dismantling, isLinzklar)
        case Err(e) => Err(Unparsable(e))
        case Ok(t) => Ok((lin, t))
  }

  function Conversions(records: seq<DismantlingRecord>, isLinzklar: char -> bool): (rs: seq<Result<(char, Tree), RecordError>>)
    ensures |rs| == |records|
    ensures forall i :: 0 <= i < |records| ==> rs[i] == Convert(records[i], isLinzklar)
  {
    seq(|records|, i requires 0 <= i < |records| => Convert(records[i], isLinzklar))
  }

  /** The dismantling table: one entry per record in order, or the first record that
      fails to convert. */
  function LoadDismantlingTable(records: seq<DismantlingRecord>, isLinzklar: char -> bool): (r: Result<seq<(char, Tree)>, RecordError>)
    ensures r.Ok? <==> forall i :: 0 <= i < |records| ==> Convert(records[i], isLinzklar).Ok?
    ensures r.Ok? ==> |r.value| == |records|
    ensures r.Ok? ==> forall i :: 0 <= i < |records| ==> [r.value[i].0] == records[i].linzklar
    ensures r.Ok? ==> forall i :: 0 <= i < |records| ==> Convert(records[i], isLinzklar) == Ok(r.value[i])
    ensures r.Ok? ==> forall i :: 0 <= i < |records| && records[i].dismantling == "FALSE" ==>
      r.value[i].1 == Leaf(r.value[i].0)
    ensures r.Ok? ==> forall i :: 0 <= i < |records| && records[i].dismantling != "FALSE" ==>
      Parse(records[i].dismantling, isLinzklar) == Ok(r.value[i].1)
    ensures r.Err? ==> exists i :: FirstErrAt(Conversions(records, isLinzklar), i, r.error)
  {
    CollectFirstError(Conversions(records, isLinzklar))
  }

  /** A table of linzklar glyphs and trees writes out as records that load back into the
      same table, provided each tree's glyphs are linzklar. */
  function Records(table: seq<(char, Tree)>): (rs: seq<DismantlingRecord>)
    ensures |rs| == |table|
  {
    seq(|table|, i requires 0 <= i < |table| => DismantlingRecord([table[i].0], ToIds(table[i].1)))
  }

  lemma LoadRecords(table: seq<(char, Tree)>, isLinzklar: char -> bool)
    requires forall i :: 0 <= i < |table| ==> isLinzklar(table[i].0) && LeavesAdmitted(table[i].1, isLinzklar)
    ensures LoadDismantlingTable(Records(table), isLinzklar) == Ok(table)
  {
    var records := Records(table);
    forall i | 0 <= i < |table|
      ensures Convert(records[i], isLinzklar) == Ok(table[i])
    {
      ParseToIds(table[i].1, isLinzklar, Rotation);
      LeafNotFalse(table[i].1, isLinzklar);
    }
    var r := LoadDismantlingTable(records, isLinzklar);
    assert r.Ok?;
    assert r.value == table;
  }

  /** No tree is written as the five characters `FALSE`: a description is one glyph or
      starts with an operator character. */
  lemma LeafNotFalse(t: Tree, isLinzklar: char -> bool)
    ensures ToIds(t) != "FALSE"
  {
    match t
    case Leaf(c) =>
    case _ =>
      assert IsOperatorChar(ToIds(t)[0]);
  }
}
