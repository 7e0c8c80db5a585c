/** Matching openers and closers with a stack, against the grammar of balanced
    sequences. */
module Brackets {
  import opened Wrappers

  datatype Mark<K> = Open(kind: K) | Close(kind: K)

  // ----- the stack ------------------------------------------------------------------------

  /** An opener is pushed; a closer pops an opener of its kind or fails. */
  function Step<K(==)>(stack: Option<seq<K>>, m: Mark<K>): Option<seq<K>> {
    if stack.None? then None
    else match m
      case Open(k) => Some(stack.value + [k])
      case Close(k) =>
        var n := |stack.value|;
        if n > 0 && stack.value[n - 1] == k then Some(stack.value[..n - 1]) else None
  }

  function Fold<K(==)>(stack: Option<seq<K>>, marks: seq<Mark<K>>): Option<seq<K>> {
    if marks == [] then stack else Step(Fold(stack, marks[..|marks| - 1]), marks[|marks| - 1])
  }

  /** The stack that marks leave, or none at a mismatch. */
  function Match<K(==)>(marks: seq<Mark<K>>): Option<seq<K>> {
    Fold(Some([]), marks)
  }

  // ----- the grammar ------------------------------------------------------------------------

  /** Empty, or an opener, a balanced body, its closer, and a balanced rest. */
  ghost predicate Balanced<K>(marks: seq<Mark<K>>)
    decreases |marks|
  {
    marks == [] || exists i | 0 < i < |marks| :: Pair(marks, i)
  }

  ghost predicate Pair<K>(marks: seq<Mark<K>>, i: nat)
    requires 0 < i < |marks|
    decreases |marks|, 0
  {
    && marks[0].Open? && marks[i] == Close(marks[0].kind)
    && Balanced(marks[1..i]) && Balanced(marks[i + 1..])
  }

  /** Balanced runs around openers that are never closed, of these kinds. */
  ghost predicate Unclosed<K>(marks: seq<Mark<K>>, kinds: seq<K>)
    decreases |kinds|
  {
    if kinds == [] then Balanced(marks)
    else exists i | 0 <= i < |marks| :: LastOpener(marks, kinds, i)
  }

  ghost predicate LastOpener<K>(marks: seq<Mark<K>>, kinds: seq<K>, i: nat)
    requires i < |marks| && kinds != []
    decreases |kinds|, 0
  {
    && marks[i] == Open(kinds[|kinds| - 1])
    && Unclosed(marks[..i], kinds[..|kinds| - 1]) && Balanced(marks[i + 1..])
  }

  /** Something that may follow makes the marks balanced. */
  ghost predicate Completable<K(!new)>(marks: seq<Mark<K>>) {
    exists rest :: Balanced(marks + rest)
  }

  lemma Wrap<K>(k: K, body: seq<Mark<K>>)
    requires Balanced(body)
    ensures Balanced([Open(k)] + body + [Close(k)])
  {
    var marks := [Open(k)] + body + [Close(k)];
    assert marks[1..|body| + 1] == body && marks[|body| + 2..] == [];
    assert Pair(marks, |body| + 1);
  }

  lemma {:induction false} BalancedJoin<K>(a: seq<Mark<K>>, b: seq<Mark<K>>)
    requires Balanced(a) && Balanced(b)
    ensures Balanced(a + b)
    decreases |a|
  {
    if a == [] {
      assert a + b == b;
    } else {
      var i :| 0 < i < |a| && Pair(a, i);
      BalancedJoin(a[i + 1..], b);
      assert (a + b)[1..i] == a[1..i] && (a + b)[i + 1..] == a[i + 1..] + b;
      assert Pair(a + b, i);
    }
  }

  lemma UnclosedJoin<K>(a: seq<Mark<K>>, kinds: seq<K>, b: seq<Mark<K>>)
    requires Unclosed(a, kinds) && Balanced(b)
    ensures Unclosed(a + b, kinds)
  {
    if kinds == [] {
      BalancedJoin(a, b);
    } else {
      var i :| 0 <= i < |a| && LastOpener(a, kinds, i);
      BalancedJoin(a[i + 1..], b);
      assert (a + b)[..i] == a[..i] && (a + b)[i + 1..] == a[i + 1..] + b;
      assert LastOpener(a + b, kinds, i);
    }
  }

  lemma UnclosedPush<K>(a: seq<Mark<K>>, kinds: seq<K>, k: K)
    requires Unclosed(a, kinds)
    ensures Unclosed(a + [Open(k)], kinds + [k])
  {
    var marks, more := a + [Open(k)], kinds + [k];
    assert marks[..|a|] == a && marks[|a| + 1..] == [] && more[..|kinds|] == kinds;
    assert LastOpener(marks, more, |a|);
  }

  lemma UnclosedPop<K>(a: seq<Mark<K>>, kinds: seq<K>, k: K)
    requires Unclosed(a, kinds + [k])
    ensures Unclosed(a + [Close(k)], kinds)
  {
    var more := kinds + [k];
    var i :| 0 <= i < |a| && LastOpener(a, more, i);
    assert more[..|more| - 1] == kinds;
    Wrap(k, a[i + 1..]);
    UnclosedJoin(a[..i], kinds, [Open(k)] + a[i + 1..] + [Close(k)]);
    assert a + [Close(k)] == a[..i] + ([Open(k)] + a[i + 1..] + [Close(k)]);
  }

  // ----- the stack is the grammar ----------------------------------------------------------------

  lemma {:induction false} FoldJoin<K>(stack: Option<seq<K>>, a: seq<Mark<K>>, b: seq<Mark<K>>)
    ensures Fold(stack, a + b) == Fold(Fold(stack, a), b)
    decreases |b|
  {
    if b == [] {
      assert a + b == a;
    } else {
      assert (a + b)[..|a + b| - 1] == a + b[..|b| - 1];
      FoldJoin(stack, a, b[..|b| - 1]);
    }
  }

  lemma {:induction false} FoldNone<K>(marks: seq<Mark<K>>)
    ensures Fold<K>(None, marks) == None
  {
    if marks != [] {
      FoldNone(marks[..|marks| - 1]);
    }
  }

  lemma FoldOne<K>(stack: Option<seq<K>>, m: Mark<K>)
    ensures Fold(stack, [m]) == Step(stack, m)
  {
    assert [m][..0] == [];
  }

  lemma {:induction false} BalancedKeepsStack<K>(stack: seq<K>, marks: seq<Mark<K>>)
    requires Balanced(marks)
    ensures Fold(Some(stack), marks) == Some(stack)
    decreases |marks|
  {
    if marks != [] {
      var i :| 0 < i < |marks| && Pair(marks, i);
      var k, body, rest := marks[0].kind, marks[1..i], marks[i + 1..];
      assert marks == [Open(k)] + body + [Close(k)] + rest;
      FoldJoin(Some(stack), [Open(k)] + body + [Close(k)], rest);
      FoldJoin(Some(stack), [Open(k)] + body, [Close(k)]);
      FoldJoin(Some(stack), [Open(k)], body);
      FoldOne(Some(stack), Open(k));
      BalancedKeepsStack(stack + [k], body);
      FoldOne(Some(stack + [k]), Close(k));
      assert (stack + [k])[..|stack|] == stack;
      BalancedKeepsStack(stack, rest);
    }
  }

  /** The stack left is exactly the openers left unclosed. */
  lemma {:induction false} MatchIsUnclosed<K>(marks: seq<Mark<K>>, kinds: seq<K>)
    ensures Match(marks) == Some(kinds) <==> Unclosed(marks, kinds)
  {
    if Match(marks) == Some(kinds) {
      StackIsUnclosed(marks, kinds);
    }
    if Unclosed(marks, kinds) {
      UnclosedIsStack(marks, kinds);
    }
  }

  lemma {:induction false} StackIsUnclosed<K>(marks: seq<Mark<K>>, kinds: seq<K>)
    requires Match(marks) == Some(kinds)
    ensures Unclosed(marks, kinds)
    decreases |marks|
  {
    if marks != [] {
      var init, last := marks[..|marks| - 1], marks[|marks| - 1];
      var before := Match(init).value;
      StackIsUnclosed(init, before);
      assert init + [last] == marks;
      match last
      case Open(k) => UnclosedPush(init, before, k);
      case Close(k) =>
        assert before == kinds + [k];
        UnclosedPop(init, kinds, k);
    }
  }

  lemma {:induction false} UnclosedIsStack<K>(marks: seq<Mark<K>>, kinds: seq<K>)
    requires Unclosed(marks, kinds)
    ensures Match(marks) == Some(kinds)
    decreases |kinds|
  {
    if kinds == [] {
      BalancedKeepsStack([], marks);
    } else {
      var i :| 0 <= i < |marks| && LastOpener(marks, kinds, i);
      var outer, k := kinds[..|kinds| - 1], kinds[|kinds| - 1];
      UnclosedIsStack(marks[..i], outer);
      assert marks == marks[..i] + [Open(k)] + marks[i + 1..] && outer + [k] == kinds;
      FoldJoin(Some([]), marks[..i] + [Open(k)], marks[i + 1..]);
      FoldJoin(Some([]), marks[..i], [Open(k)]);
      FoldOne(Some(outer), Open(k));
      BalancedKeepsStack(kinds, marks[i + 1..]);
    }
  }

  function Closers<K>(kinds: seq<K>): seq<Mark<K>> {
    if kinds == [] then [] else [Close(kinds[|kinds| - 1])] + Closers(kinds[..|kinds| - 1])
  }

  lemma {:induction false} ClosersBalance<K>(marks: seq<Mark<K>>, kinds: seq<K>)
    requires Unclosed(marks, kinds)
    ensures Balanced(marks + Closers(kinds))
    decreases |kinds|
  {
    if kinds == [] {
      assert marks + [] == marks;
    } else {
      var outer, k := kinds[..|kinds| - 1], kinds[|kinds| - 1];
      assert outer + [k] == kinds;
      UnclosedPop(marks, outer, k);
      ClosersBalance(marks + [Close(k)], outer);
      assert marks + Closers(kinds) == marks + [Close(k)] + Closers(outer);
    }
  }

  /** A mismatch is reported exactly when nothing that may follow can make the
      marks balanced. */
  lemma MatchIffCompletable<K(!new)>(marks: seq<Mark<K>>)
    ensures Match(marks).Some? <==> Completable(marks)
  {
    if Match(marks).Some? {
      StackIsUnclosed(marks, Match(marks).value);
      ClosersBalance(marks, Match(marks).value);
      assert Balanced(marks + Closers(Match(marks).value));
    }
    forall rest | Balanced(marks + rest) ensures Match(marks).Some? {
      BalancedKeepsStack([], marks + rest);
      FoldJoin(Some([]), marks, rest);
      FoldNone(rest);
    }
  }
}
