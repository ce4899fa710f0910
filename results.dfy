/** Error values and the two list combinators every loop of the core is built from:
    a map that stops at the first error, and an order-preserving filter. */
module Results {

  datatype Option<T> = None | Some(value: T)

  /** The errors the core distinguishes. `Failed` carries an error raised by a callback
      the core does not look into (a domain mapper, a fetch helper). */
  datatype Error =
    | NotFound                                     // gorm.ErrRecordNotFound
    | NoMapper(typ: string)                        // "no mapper registered for type %v"
    | UnexpectedType(expected: string, got: string) // "mapper expected *%v, got %T" / "mapper returned %T, expected *%v"
    | HasChildren                                  // "cannot delete node with children"
    | DuplicateBinding(nodeId: string, tagId: string) // primary-key violation on node_tags
    | Failed(reason: string)

  datatype Result<T> = Ok(value: T) | Err(error: Error)

  /** The `error` a Go function returns on its own: nil or an error. */
  datatype Outcome = Pass | Fail(error: Error)

  /** `for _, x := range xs { y, err := f(x); if err != nil { return nil, err }; out = append(out, y) }`:
      applies `f` in order and stops at the first error. Defined from the end so that a loop
      that has handled `xs[..i]` extends it by one step. */
  function Traverse<A, B>(xs: seq<A>, f: A -> Result<B>): Result<seq<B>>
    decreases |xs|
  {
    if xs == [] then Ok([])
    else
      match Traverse(xs[..|xs| - 1], f)
      case Err(e) => Err(e)
      case Ok(ys) =>
        match f(xs[|xs| - 1])
        case Err(e) => Err(e)
        case Ok(y) => Ok(ys + [y])
  }

  /** Traverse succeeds exactly when every element maps without error, and then it
      returns one result per element, in input order. */
  lemma {:induction false} TraverseOk<A, B>(xs: seq<A>, f: A -> Result<B>)
    ensures Traverse(xs, f).Ok? <==> forall i :: 0 <= i < |xs| ==> f(xs[i]).Ok?
    ensures Traverse(xs, f).Ok? ==>
              |Traverse(xs, f).value| == |xs| &&
              forall i :: 0 <= i < |xs| ==> f(xs[i]) == Ok(Traverse(xs, f).value[i])
    decreases |xs|
  {
    if xs != [] {
      var init := xs[..|xs| - 1];
      TraverseOk(init, f);
      assert forall i :: 0 <= i < |init| ==> init[i] == xs[i];
    }
  }

  /** A failing Traverse reports the error of the FIRST element that fails. */
  lemma {:induction false} TraverseFirstError<A, B>(xs: seq<A>, f: A -> Result<B>)
    requires Traverse(xs, f).Err?
    ensures exists i :: 0 <= i < |xs| && f(xs[i]) == Err(Traverse(xs, f).error) &&
                        forall j :: 0 <= j < i ==> f(xs[j]).Ok?
    decreases |xs|
  {
    var init := xs[..|xs| - 1];
    assert forall i :: 0 <= i < |init| ==> init[i] == xs[i];
    if Traverse(init, f).Err? {
      TraverseFirstError(init, f);
    } else {
      TraverseOk(init, f);
      assert f(xs[|xs| - 1]) == Err(Traverse(xs, f).error);
    }
  }

  /** Once a prefix has failed, the whole traversal fails with the same error: the loops
      that return at the first error return what Traverse of the whole input returns. */
  lemma {:induction false} TraversePrefixError<A, B>(xs: seq<A>, i: nat, f: A -> Result<B>)
    requires i <= |xs| && Traverse(xs[..i], f).Err?
    ensures Traverse(xs, f) == Traverse(xs[..i], f)
    decreases |xs| - i
  {
    if i < |xs| {
      assert xs[..i + 1][..i] == xs[..i];
      TraversePrefixError(xs, i + 1, f);
    } else {
      assert xs[..i] == xs;
    }
  }

  /** One more step of a Traverse: the loop body that maps one further element. */
  lemma TraverseSnoc<A, B>(xs: seq<A>, x: A, f: A -> Result<B>)
    ensures Traverse(xs + [x], f) ==
              if Traverse(xs, f).Err? then Traverse(xs, f)
              else if f(x).Err? then Err(f(x).error)
              else Ok(Traverse(xs, f).value + [f(x).value])
  {
    assert (xs + [x])[..|xs|] == xs;
  }

  // Solver helpers: sequence identities the loop proofs call to steer the verifier. They model
  // nothing of their own.

  /** A loop's prefix grows by the element it has just looked at. */
  lemma SliceSnoc<T>(s: seq<T>, i: nat)
    requires i < |s|
    ensures s[..i + 1] == s[..i] + [s[i]]
  {
  }

  /** A sequence is its prefix followed by its suffix. */
  lemma SplitAt<T>(s: seq<T>, i: nat)
    requires i <= |s|
    ensures s[..i] + s[i..] == s
  {
  }

  /** The prefix of a concatenation as long as its first part is that part. */
  lemma AppendPrefix<T>(a: seq<T>, b: seq<T>)
    ensures (a + b)[..|a|] == a
  {
  }

  /** The elements of `s` that satisfy `p`, in their original order (a `continue` in a loop). */
  function Filter<T>(s: seq<T>, p: T -> bool): (r: seq<T>)
    ensures |r| <= |s|
    ensures forall i :: 0 <= i < |r| ==> r[i] in s && p(r[i])
    ensures forall i :: 0 <= i < |s| && p(s[i]) ==> s[i] in r
    decreases |s|
  {
    if s == [] then []
    else
      var init := Filter(s[..|s| - 1], p);
      assert forall i :: 0 <= i < |s| - 1 ==> s[..|s| - 1][i] == s[i];
      if p(s[|s| - 1]) then init + [s[|s| - 1]] else init
  }

  /** One more step of a Filter: the loop body that looks at one further element. */
  lemma FilterSnoc<T>(s: seq<T>, x: T, p: T -> bool)
    ensures Filter(s + [x], p) == if p(x) then Filter(s, p) + [x] else Filter(s, p)
  {
    assert (s + [x])[..|s|] == s;
  }

  /** Filtering distributes over concatenation, so the order of the input is kept. */
  lemma {:induction false} FilterAppend<T>(s: seq<T>, t: seq<T>, p: T -> bool)
    ensures Filter(s + t, p) == Filter(s, p) + Filter(t, p)
    decreases |t|
  {
    if t == [] {
      assert s + t == s;
    } else {
      var t' := t[..|t| - 1];
      assert (s + t)[..|s + t| - 1] == s + t';
      FilterAppend(s, t', p);
    }
  }

  /** Filtering by two predicates that agree on every element selects the same elements. */
  lemma {:induction false} FilterSame<T>(s: seq<T>, p: T -> bool, q: T -> bool)
    requires forall x :: p(x) == q(x)
    ensures Filter(s, p) == Filter(s, q)
    decreases |s|
  {
    if s != [] {
      FilterSame(s[..|s| - 1], p, q);
    }
  }

  /** Filter keeps everything exactly when every element satisfies the predicate. */
  lemma {:induction false} FilterAll<T>(s: seq<T>, p: T -> bool)
    ensures (Filter(s, p) == s) <==> forall i :: 0 <= i < |s| ==> p(s[i])
    decreases |s|
  {
    if s != [] {
      var init := s[..|s| - 1];
      FilterAll(init, p);
      assert forall i :: 0 <= i < |init| ==> init[i] == s[i];
      if !p(s[|s| - 1]) {
        assert |Filter(s, p)| < |s|;
      } else if Filter(s, p) == s {
        assert Filter(init, p) == init;
      }
    }
  }

  /** A loop that maps only the selected elements and returns at the first error returns what
      Traverse of the whole selection returns, once a prefix of the input has failed. */
  lemma {:induction false} TraverseFilterStop<A, B>(xs: seq<A>, i: nat, p: A -> bool, f: A -> Result<B>)
    requires i <= |xs| && Traverse(Filter(xs[..i], p), f).Err?
    ensures Traverse(Filter(xs, p), f) == Traverse(Filter(xs[..i], p), f)
  {
    var a := Filter(xs[..i], p);
    SplitAt(xs, i);
    FilterAppend(xs[..i], xs[i..], p);
    AppendPrefix(a, Filter(xs[i..], p));
    TraversePrefixError(a + Filter(xs[i..], p), |a|, f);
  }

  /** One more step of a loop that maps only the selected elements. */
  lemma TraverseFilterSnoc<A, B>(xs: seq<A>, x: A, p: A -> bool, f: A -> Result<B>)
    ensures Traverse(Filter(xs + [x], p), f) ==
              if !p(x) then Traverse(Filter(xs, p), f)
              else if Traverse(Filter(xs, p), f).Err? then Traverse(Filter(xs, p), f)
              else if f(x).Err? then Err(f(x).error)
              else Ok(Traverse(Filter(xs, p), f).value + [f(x).value])
  {
    FilterSnoc(xs, x, p);
    if p(x) {
      TraverseSnoc(Filter(xs, p), x, f);
    }
  }
}
