/** The evaluation list of semi_static_filter, built at compile time from
    the post-order node lists of the expression and of the error expression.
    Type-level lists become sequences, and the Mp11 algorithms the filter
    uses become the functions below:
      mp_unique         Unique
      mp_remove_if      RemoveIf
      mp_set_difference SetDifference
      mp_append         sequence concatenation
    The post-order traversal and the leaf test are collaborators whose
    results are taken as given: a sequence of nodes and a predicate. */
module EvalList {

  /** No node occurs twice. */
  predicate NoDuplicates<T(==,!new)>(s: seq<T>) {
    forall i, j :: 0 <= i < j < |s| ==> s[i] != s[j]
  }

  /** mp_unique: the list with every repeated element dropped after its
      first occurrence. */
  function Unique<T(==,!new)>(s: seq<T>): (r: seq<T>)
    ensures NoDuplicates(r)
    ensures forall x :: x in r <==> x in s
    ensures |r| <= |s|
    decreases |s|
  {
    if |s| == 0 then
      []
    else
      var u := Unique(s[..|s| - 1]);
      var x := s[|s| - 1];
      assert s == s[..|s| - 1] + [x];
      if x in u then u else u + [x]
  }

  /** mp_remove_if: the elements that fail the test, in their order. */
  function RemoveIf<T(==,!new)>(s: seq<T>, test: T -> bool): (r: seq<T>)
    ensures forall x :: x in r <==> x in s && !test(x)
    ensures NoDuplicates(s) ==> NoDuplicates(r)
    ensures |r| <= |s|
  {
    if |s| == 0 then
      []
    else
      var rest := RemoveIf(s[1..], test);
      if test(s[0]) then rest
      else
        assert NoDuplicates(s) ==> s[0] !in s[1..];
        [s[0]] + rest
  }

  /** mp_set_difference: the elements of `l` that do not occur in `s`, in
      their order. */
  function SetDifference<T(==,!new)>(l: seq<T>, s: seq<T>): (r: seq<T>)
    ensures forall x :: x in r <==> x in l && x !in s
    ensures NoDuplicates(l) ==> NoDuplicates(r)
  {
    RemoveIf(l, MemberOf(s))
  }

  /** The membership test of `s`, the predicate mp_set_difference removes by. */
  function MemberOf<T(==,!new)>(s: seq<T>): T -> bool {
    x => x in s
  }

  /** The set difference of a concatenation is the concatenation of the set
      differences. */
  lemma SetDifferenceDistributes<T(!new)>(a: seq<T>, b: seq<T>, s: seq<T>)
    ensures SetDifference(a + b, s) == SetDifference(a, s) + SetDifference(b, s)
  {
    RemoveIfDistributes(a, b, MemberOf(s));
  }

  /** The set difference of a one-element list keeps the element exactly
      when it is not in `s`. */
  lemma SetDifferenceOfSingleton<T(!new)>(x: T, s: seq<T>)
    ensures SetDifference([x], s) == if x in s then [] else [x]
  {
    assert [x][1..] == [];
  }

  /** `stack`: the distinct nodes of the expression, in post order. */
  function Stack<T(==,!new)>(exprPostOrder: seq<T>): (r: seq<T>)
    ensures NoDuplicates(r)
    ensures forall x :: x in r <==> x in exprPostOrder
  {
    Unique(exprPostOrder)
  }

  /** `evals`: the distinct inner nodes of the expression, in post order. */
  function Evals<T(==,!new)>(exprPostOrder: seq<T>, isLeaf: T -> bool): (r: seq<T>)
    ensures NoDuplicates(r)
    ensures forall x :: x in r <==> x in exprPostOrder && !isLeaf(x)
  {
    RemoveIf(Stack(exprPostOrder), isLeaf)
  }

  /** `error_eval_stack`: the distinct nodes of the error expression. */
  function ErrorEvalStack<T(==,!new)>(errorPostOrder: seq<T>): (r: seq<T>)
    ensures NoDuplicates(r)
    ensures forall x :: x in r <==> x in errorPostOrder
  {
    Unique(errorPostOrder)
  }

  /** `error_eval_stack_remainder`: the nodes of the error expression that
      `evals` does not already compute. */
  function ErrorEvalStackRemainder<T(==,!new)>(exprPostOrder: seq<T>, errorPostOrder: seq<T>, isLeaf: T -> bool): (r: seq<T>)
    ensures NoDuplicates(r)
    ensures forall x :: x in r <==> x in errorPostOrder && !(x in exprPostOrder && !isLeaf(x))
  {
    SetDifference(ErrorEvalStack(errorPostOrder), Evals(exprPostOrder, isLeaf))
  }

  /** `all_evals`: every node the filter evaluates, each once, the inner
      nodes of the expression first. */
  function AllEvals<T(==,!new)>(exprPostOrder: seq<T>, errorPostOrder: seq<T>, isLeaf: T -> bool): (r: seq<T>)
    ensures NoDuplicates(r)
    ensures |Evals(exprPostOrder, isLeaf)| <= |r|
    ensures r[..|Evals(exprPostOrder, isLeaf)|] == Evals(exprPostOrder, isLeaf)
    ensures forall x :: x in ErrorEvalStack(errorPostOrder) ==> x in r
    ensures forall x :: x in r <==> (x in exprPostOrder && !isLeaf(x)) || x in errorPostOrder
  {
    var evals := Evals(exprPostOrder, isLeaf);
    var remainder := ErrorEvalStackRemainder(exprPostOrder, errorPostOrder, isLeaf);
    DisjointConcatenation(evals, remainder);
    evals + remainder
  }

  /** Concatenating two duplicate-free lists with no common element gives a
      duplicate-free list. */
  lemma DisjointConcatenation<T(!new)>(a: seq<T>, b: seq<T>)
    requires NoDuplicates(a) && NoDuplicates(b)
    requires forall x :: x in a ==> x !in b
    ensures NoDuplicates(a + b)
  {
    forall i, j | 0 <= i < j < |a + b|
      ensures (a + b)[i] != (a + b)[j]
    {
      if j < |a| {
        assert (a + b)[i] == a[i] && (a + b)[j] == a[j];
      } else if i >= |a| {
        assert (a + b)[i] == b[i - |a|] && (a + b)[j] == b[j - |a|];
      } else {
        assert (a + b)[i] == a[i] && (a + b)[j] == b[j - |a|];
        assert a[i] in a;
      }
    }
  }

  /** Removing elements from a concatenation removes them from each part. */
  lemma {:induction false} RemoveIfDistributes<T(!new)>(a: seq<T>, b: seq<T>, test: T -> bool)
    ensures RemoveIf(a + b, test) == RemoveIf(a, test) + RemoveIf(b, test)
    decreases |a|
  {
    if |a| == 0 {
      assert a + b == b;
    } else {
      assert (a + b)[0] == a[0];
      assert (a + b)[1..] == a[1..] + b;
      RemoveIfDistributes(a[1..], b, test);
    }
  }

  /** A duplicate-free list is its own deduplication. */
  lemma {:induction false} UniqueOfNoDuplicates<T(!new)>(s: seq<T>)
    requires NoDuplicates(s)
    ensures Unique(s) == s
    decreases |s|
  {
    if |s| > 0 {
      var prefix := s[..|s| - 1];
      assert NoDuplicates(prefix);
      UniqueOfNoDuplicates(prefix);
      assert s[|s| - 1] !in prefix;
      assert s == prefix + [s[|s| - 1]];
    }
  }

  /** Deduplicating a list extended by one element appends that element
      exactly when it is new. */
  lemma UniqueSnoc<T(!new)>(s: seq<T>, x: T)
    ensures Unique(s + [x]) == if x in s then Unique(s) else Unique(s) + [x]
  {
    var w := s + [x];
    assert w[..|w| - 1] == s;
  }

  /** Deduplicating a concatenation keeps the deduplicated first part and
      appends, in order of first occurrence, the elements of the second part
      that the first lacks. So a deduplication only ever grows at the end. */
  lemma {:induction false} UniqueOfConcatenation<T(!new)>(s: seq<T>, t: seq<T>)
    ensures Unique(s + t) == Unique(s) + SetDifference(Unique(t), s)
    decreases |t|
  {
    if |t| == 0 {
      assert s + t == s;
    } else {
      var t', x := t[..|t| - 1], t[|t| - 1];
      assert t == t' + [x];
      assert s + t == (s + t') + [x];
      UniqueOfConcatenation(s, t');
      UniqueOfConcatenationStep(s, t', x);
    }
  }

  /** The inductive step of UniqueOfConcatenation: the property carries
      over from t to t + [x]. */
  lemma UniqueOfConcatenationStep<T(!new)>(s: seq<T>, t: seq<T>, x: T)
    requires Unique(s + t) == Unique(s) + SetDifference(Unique(t), s)
    ensures Unique((s + t) + [x]) == Unique(s) + SetDifference(Unique(t + [x]), s)
  {
    UniqueSnoc(s + t, x);
    UniqueSnoc(t, x);
    if x !in t {
      SetDifferenceDistributes(Unique(t), [x], s);
      SetDifferenceOfSingleton(x, s);
      if x in s {
        assert x in s + t;
      } else {
        UniqueOfConcatenationStepNew(s, t, x);
      }
    }
  }

  /** The step of UniqueOfConcatenation for an element new to both parts:
      it is appended on both sides. */
  lemma UniqueOfConcatenationStepNew<T(!new)>(s: seq<T>, t: seq<T>, x: T)
    requires Unique(s + t) == Unique(s) + SetDifference(Unique(t), s)
    requires x !in s && x !in t
    ensures Unique((s + t) + [x]) == Unique(s) + SetDifference(Unique(t) + [x], s)
  {
    UniqueSnoc(s + t, x);
    SetDifferenceDistributes(Unique(t), [x], s);
    SetDifferenceOfSingleton(x, s);
    AppendAssociative(Unique(s), SetDifference(Unique(t), s), [x]);
  }

  /** Concatenation is associative. */
  lemma AppendAssociative<T>(a: seq<T>, b: seq<T>, c: seq<T>)
    ensures (a + b) + c == a + (b + c)
  {
  }

  /** `all_evals` is the deduplication of the inner nodes of the expression
      followed by every node of the error expression. */
  lemma AllEvalsIsUniqueOfConcatenation<T(!new)>(exprPostOrder: seq<T>, errorPostOrder: seq<T>, isLeaf: T -> bool)
    ensures AllEvals(exprPostOrder, errorPostOrder, isLeaf)
         == Unique(Evals(exprPostOrder, isLeaf) + errorPostOrder)
  {
    var evals := Evals(exprPostOrder, isLeaf);
    UniqueOfConcatenation(evals, errorPostOrder);
    UniqueOfNoDuplicates(evals);
  }
}
