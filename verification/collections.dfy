/** Accumulators used by the aggregation passes: first-use ordering and occurrence counting. */
module Collections {
  import opened Wrappers

  /** No element occurs twice. */
  predicate Distinct<T(==)>(xs: seq<T>)
  {
    forall i, j :: 0 <= i < j < |xs| ==> xs[i] != xs[j]
  }

  /** The elements of `xs` in first-use order: walking `xs` from the front,
      an element is appended only when it is not yet present
      (the `if !contains_key { insert }` idiom over a `LinkedHashMap`). */
  function FirstUse<T(==,!new)>(xs: seq<T>): (ys: seq<T>)
    ensures Distinct(ys)
    ensures forall y :: y in ys <==> y in xs
    ensures |ys| <= |xs|
  {
    if |xs| == 0 then []
    else
      var d := FirstUse(xs[..|xs| - 1]);
      var x := xs[|xs| - 1];
      assert forall y :: y in xs <==> y in xs[..|xs| - 1] || y == x by {
        assert xs == xs[..|xs| - 1] + [x];
      }
      if x in d then d else d + [x]
  }

  /** First-use order is stable: the order built from any prefix of the input
      is a prefix of the order built from the whole input. */
  lemma {:induction false} FirstUsePrefix<T(!new)>(xs: seq<T>, k: nat)
    requires k <= |xs|
    ensures |FirstUse(xs[..k])| <= |FirstUse(xs)|
    ensures FirstUse(xs[..k]) == FirstUse(xs)[..|FirstUse(xs[..k])|]
    decreases |xs|
  {
    if k == |xs| {
      assert xs[..k] == xs;
    } else {
      var init := xs[..|xs| - 1];
      assert init[..k] == xs[..k];
      FirstUsePrefix(init, k);
    }
  }

  /** Adds one occurrence of `x` to a counter map (`*entry(x).or_insert(0) += 1`). */
  function Bump<T(==)>(m: map<T, nat>, x: T): map<T, nat>
  {
    m[x := (if x in m then m[x] else 0) + 1]
  }

  /** Occurrence counts of the elements of `xs`, built by bumping one counter per element. */
  function Tally<T(==,!new)>(xs: seq<T>): (m: map<T, nat>)
    ensures forall y :: y in m <==> y in xs
    ensures forall y :: y in m ==> m[y] == multiset(xs)[y] && m[y] >= 1
  {
    if |xs| == 0 then map[]
    else
      var init := xs[..|xs| - 1];
      var x := xs[|xs| - 1];
      assert xs == init + [x];
      assert multiset(xs) == multiset(init) + multiset{x};
      Bump(Tally(init), x)
  }

  /** The count `m` holds for `k`, zero when `k` is absent. */
  function CountOf<T(==)>(m: map<T, nat>, k: T): nat
  {
    if k in m then m[k] else 0
  }

  /** The sum of the counts of the keys `ks`. */
  function SumOver<T(==)>(ks: seq<T>, m: map<T, nat>): nat
  {
    if |ks| == 0 then 0 else SumOver(ks[..|ks| - 1], m) + CountOf(m, ks[|ks| - 1])
  }

  /** Bumping `x` adds one to a sum over distinct keys exactly when `x` is among them. */
  lemma {:induction false} SumOverBump<T>(ks: seq<T>, m: map<T, nat>, x: T)
    requires Distinct(ks)
    ensures SumOver(ks, Bump(m, x)) == SumOver(ks, m) + (if x in ks then 1 else 0)
  {
    if |ks| > 0 {
      var init := ks[..|ks| - 1];
      var y := ks[|ks| - 1];
      assert ks == init + [y];
      assert Distinct(init);
      SumOverBump(init, m, x);
      if y == x {
        assert x !in init;
      }
    }
  }

  /** The counts of a tally add up to the number of elements counted. */
  lemma {:induction false} TallyTotal<T(!new)>(xs: seq<T>)
    ensures SumOver(FirstUse(xs), Tally(xs)) == |xs|
  {
    if |xs| > 0 {
      var init := xs[..|xs| - 1];
      var x := xs[|xs| - 1];
      var d := FirstUse(init);
      TallyTotal(init);
      SumOverBump(d, Tally(init), x);
      if x !in d {
        var d' := d + [x];
        assert d'[..|d'| - 1] == d;
        assert x !in Tally(init);
      }
    }
  }

  /** The errors of `rs`, one per `Err` entry, in order of appearance. */
  function ErrorsOf<T, E>(rs: seq<Result<T, E>>): seq<E>
  {
    if |rs| == 0 then []
    else (if rs[0].Err? then [rs[0].error] else []) + ErrorsOf(rs[1..])
  }

  /** One entry in front adds its error, if it has one, in front. */
  lemma ErrorsOfCons<T, E>(x: Result<T, E>, b: seq<Result<T, E>>)
    ensures ErrorsOf([x] + b) == (if x.Err? then [x.error] else []) + ErrorsOf(b)
  {
    assert ([x] + b)[0] == x;
    assert ([x] + b)[1..] == b;
  }

  /** The errors of two runs of entries are those of the first followed by those of the
      second; with `ErrorsOfCons` this fixes both their order and their number. */
  lemma {:induction false} ErrorsOfAppend<T, E>(a: seq<Result<T, E>>, b: seq<Result<T, E>>)
    ensures ErrorsOf(a + b) == ErrorsOf(a) + ErrorsOf(b)
    decreases |a|
  {
    if |a| == 0 {
      assert a + b == b;
    } else {
      ErrorsOfAppend(a[1..], b);
      assert a + b == [a[0]] + (a[1..] + b);
      ErrorsOfCons(a[0], a[1..] + b);
      var h: seq<E> := if a[0].Err? then [a[0].error] else [];
      assert h + (ErrorsOf(a[1..]) + ErrorsOf(b)) == (h + ErrorsOf(a[1..])) + ErrorsOf(b);
    }
  }

  /** Entries that are all `Ok` have no errors. */
  lemma {:induction false} ErrorsOfAllOk<T, E>(rs: seq<Result<T, E>>)
    requires forall i :: 0 <= i < |rs| ==> rs[i].Ok?
    ensures ErrorsOf(rs) == []
    decreases |rs|
  {
    if |rs| > 0 {
      assert forall i :: 0 <= i < |rs| - 1 ==> rs[1..][i] == rs[i + 1];
      ErrorsOfAllOk(rs[1..]);
    }
  }

  /** `collect_any_errors`: every value when every entry is `Ok`, otherwise every error,
      in order of appearance. */
  function CollectAnyErrors<T, E>(rs: seq<Result<T, E>>): (r: Result<seq<T>, seq<E>>)
    ensures r.Ok? <==> forall i :: 0 <= i < |rs| ==> rs[i].Ok?
    ensures r.Ok? ==> |r.value| == |rs| && forall i :: 0 <= i < |rs| ==> rs[i] == Ok(r.value[i])
    ensures r.Err? ==> r.error == ErrorsOf(rs)
    ensures r.Err? ==> |r.error| > 0
    ensures r.Err? ==> forall i :: 0 <= i < |rs| && rs[i].Err? ==> rs[i].error in r.error
    ensures r.Err? ==> forall k :: 0 <= k < |r.error| ==>
      exists i :: 0 <= i < |rs| && rs[i] == Err(r.error[k])
  {
    ErrorsOfMembers(rs);
    CollectAll(rs)
  }

  /** The collection loop of `CollectAnyErrors`. */
  function CollectAll<T, E>(rs: seq<Result<T, E>>): (r: Result<seq<T>, seq<E>>)
    ensures r.Ok? <==> forall i :: 0 <= i < |rs| ==> rs[i].Ok?
    ensures r.Ok? ==> |r.value| == |rs| && forall i :: 0 <= i < |rs| ==> rs[i] == Ok(r.value[i])
    ensures r.Err? ==> r.error == ErrorsOf(rs)
  {
    if |rs| == 0 then Ok([])
    else
      var rest := CollectAll(rs[1..]);
      assert forall i :: 1 <= i < |rs| ==> rs[i] == rs[1..][i - 1];
      assert rs == [rs[0]] + rs[1..];
      ErrorsOfCons(rs[0], rs[1..]);
      match rs[0]
      case Ok(v) =>
        (match rest case Ok(vs) => Ok([v] + vs) case Err(es) => Err(es))
      case Err(e) =>
        match rest
        case Ok(_) =>
          ErrorsOfAllOk(rs[1..]);
          assert [e] + [] == [e];
          Err([e])
        case Err(es) => Err([e] + es)
  }

  /** The errors of `rs` are exactly the errors its `Err` entries carry, and there is one
      as soon as some entry is an `Err`. */
  lemma {:induction false} ErrorsOfMembers<T, E>(rs: seq<Result<T, E>>)
    ensures (exists i :: 0 <= i < |rs| && rs[i].Err?) ==> |ErrorsOf(rs)| > 0
    ensures forall i :: 0 <= i < |rs| && rs[i].Err? ==> rs[i].error in ErrorsOf(rs)
    ensures forall k :: 0 <= k < |ErrorsOf(rs)| ==> exists i :: 0 <= i < |rs| && rs[i] == Err(ErrorsOf(rs)[k])
    decreases |rs|
  {
    if |rs| > 0 {
      var tail := rs[1..];
      ErrorsOfMembers(tail);
      assert forall i :: 1 <= i < |rs| ==> rs[i] == tail[i - 1];
      var h: seq<E> := if rs[0].Err? then [rs[0].error] else [];
      assert ErrorsOf(rs) == h + ErrorsOf(tail);
      forall k | 0 <= k < |ErrorsOf(rs)|
        ensures exists i :: 0 <= i < |rs| && rs[i] == Err(ErrorsOf(rs)[k])
      {
        if k < |h| {
          assert rs[0] == Err(ErrorsOf(rs)[k]);
        } else {
          var m := k - |h|;
          assert ErrorsOf(rs)[k] == ErrorsOf(tail)[m];
          assert 0 <= m < |ErrorsOf(tail)|;
          var j :| 0 <= j < |tail| && tail[j] == Err(ErrorsOf(tail)[m]);
          assert rs[j + 1] == Err(ErrorsOf(rs)[k]);
        }
      }
    } else {
      assert ErrorsOf(rs) == [];
    }
  }

  /** Entry `i` is the first `Err` of `rs`, and it carries `e`. */
  ghost predicate FirstErrAt<T, E>(rs: seq<Result<T, E>>, i: int, e: E)
  {
    && 0 <= i < |rs|
    && rs[i] == Err(e)
    && forall j :: 0 <= j < i ==> rs[j].Ok?
  }

  /** `collect::<Result<Vec<_>, _>>()`: every value when every entry is `Ok`, otherwise
      the first error, the entries after it being left unvisited. */
  function CollectFirstError<T, E>(rs: seq<Result<T, E>>): (r: Result<seq<T>, E>)
    ensures r.Ok? <==> forall i :: 0 <= i < |rs| ==> rs[i].Ok?
    ensures r.Ok? ==> |r.value| == |rs| && forall i :: 0 <= i < |rs| ==> rs[i] == Ok(r.value[i])
    ensures r.Err? ==> exists i :: FirstErrAt(rs, i, r.error)
  {
    if |rs| == 0 then Ok([])
    else
      assert forall i :: 1 <= i < |rs| ==> rs[i] == rs[1..][i - 1];
      match rs[0]
      case Err(e) =>
        assert FirstErrAt(rs, 0, e);
        Err(e)
      case Ok(v) =>
        match CollectFirstError(rs[1..])
        case Ok(vs) => Ok([v] + vs)
        case Err(e) =>
          assert forall i :: FirstErrAt(rs[1..], i, e) ==> FirstErrAt(rs, i + 1, e);
          Err(e)
  }

  /** Stopping at the first error and collecting every error agree: both succeed on the
      same inputs with the same values, and the first collected error is the one the
      fail-fast collection stops at. */
  lemma {:induction false} CollectErrorsAgree<T, E>(rs: seq<Result<T, E>>)
    ensures CollectFirstError(rs).Ok? <==> CollectAnyErrors(rs).Ok?
    ensures CollectFirstError(rs).Ok? ==> CollectFirstError(rs).value == CollectAnyErrors(rs).value
    ensures CollectFirstError(rs).Err? ==> CollectAnyErrors(rs).error[0] == CollectFirstError(rs).error
  {
    if |rs| > 0 {
      CollectErrorsAgree(rs[1..]);
    }
  }
}
