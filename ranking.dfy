/** Ranking of scored candidates, as `predictions.sort(key=lambda x: x[1],
    reverse=True)` does it: a stable sort by predicted rating, highest first.
    `SortDesc` is the reference definition (a stable insertion sort on
    values); `SortByScoreDescending` sorts an array in place and is proved
    to produce exactly `SortDesc` of the array's old contents. */
module Ranking {
  import opened Sequences

  type MovieId = int

  /** One `(movie, model.predict(user_id, movie).est)` pair. */
  datatype Prediction = Prediction(movie: MovieId, score: real)

  /** Scores never increase from first to last. */
  predicate SortedDesc(s: seq<Prediction>) {
    forall i, j :: 0 <= i < j < |s| ==> s[i].score >= s[j].score
  }

  function HasScore(v: real): Prediction -> bool {
    (p: Prediction) => p.score == v
  }

  /** The pairs of `s` scored exactly `v`, in their order in `s`. */
  function ScoreClass(s: seq<Prediction>, v: real): seq<Prediction> {
    Filter(s, HasScore(v))
  }

  /** Places `x` after every leading element scored at least as high. */
  function Insert(x: Prediction, t: seq<Prediction>): (r: seq<Prediction>)
    ensures |r| == |t| + 1
  {
    if t == [] then [x]
    else if t[0].score < x.score then [x] + t
    else [t[0]] + Insert(x, t[1..])
  }

  lemma {:induction false} InsertPermutes(x: Prediction, t: seq<Prediction>)
    ensures multiset(Insert(x, t)) == multiset(t) + multiset{x}
  {
    if t != [] && t[0].score >= x.score {
      InsertPermutes(x, t[1..]);
      assert t == [t[0]] + t[1..];
    }
  }

  lemma {:induction false} InsertSorted(x: Prediction, t: seq<Prediction>)
    requires SortedDesc(t)
    ensures SortedDesc(Insert(x, t))
  {
    if t != [] && t[0].score >= x.score {
      var t' := t[1..];
      InsertSorted(x, t');
      InsertPermutes(x, t');
      var r' := Insert(x, t');
      assert forall k :: 0 <= k < |t'| ==> t'[k] == t[k + 1];
      forall k | 0 <= k < |r'| ensures r'[k].score <= t[0].score {
        assert r'[k] in multiset(r');
        if r'[k] != x {
          assert r'[k] in multiset(t');
        }
      }
      assert Insert(x, t) == [t[0]] + r';
    }
  }

  /** Stable sort by score, highest first: the last element is inserted
      after every element of the sorted rest with a score at least as high,
      so among equal scores the earlier input element stays first. */
  function SortDesc(s: seq<Prediction>): (r: seq<Prediction>)
    ensures |r| == |s|
    ensures SortedDesc(r)
    ensures multiset(r) == multiset(s)
  {
    if s == [] then []
    else
      assert s == s[..|s| - 1] + [s[|s| - 1]];
      var rest := SortDesc(s[..|s| - 1]);
      InsertSorted(s[|s| - 1], rest);
      InsertPermutes(s[|s| - 1], rest);
      Insert(s[|s| - 1], rest)
  }

  /** `Insert` puts `x` at the first position `j` whose element scores lower. */
  lemma {:induction false} InsertAt(x: Prediction, t: seq<Prediction>, j: nat)
    requires j <= |t|
    requires forall k :: 0 <= k < j ==> t[k].score >= x.score
    requires j < |t| ==> t[j].score < x.score
    ensures Insert(x, t) == t[..j] + [x] + t[j..]
  {
    if j == 0 {
      assert t[j..] == t;
    } else {
      var t' := t[1..];
      InsertAt(x, t', j - 1) by {
        assert forall k :: 0 <= k < |t'| ==> t'[k] == t[k + 1];
      }
      calc {
        Insert(x, t);
        [t[0]] + Insert(x, t');
        [t[0]] + (t'[..j - 1] + [x] + t'[j - 1..]);
        { assert t[..j] == [t[0]] + t'[..j - 1]; assert t[j..] == t'[j - 1..]; }
        t[..j] + [x] + t[j..];
      }
    }
  }

  /** No element of a descending list below `v` is scored `v`. */
  lemma ScoreClassBelow(t: seq<Prediction>, v: real)
    requires SortedDesc(t)
    requires t != [] && t[0].score < v
    ensures ScoreClass(t, v) == []
  {
    assert forall k :: 0 <= k < |t| ==> !HasScore(v)(t[k]);
    FilterNone(t, HasScore(v));
  }

  lemma {:induction false} ScoreClassInsert(x: Prediction, t: seq<Prediction>, v: real)
    requires SortedDesc(t)
    ensures ScoreClass(Insert(x, t), v)
            == ScoreClass(t, v) + (if x.score == v then [x] else [])
  {
    var tail := if x.score == v then [x] else [];
    if t == [] {
      calc {
        ScoreClass(Insert(x, t), v);
        ScoreClass([x] + [], v);
        { FilterCons(x, [], HasScore(v)); }
        tail + ScoreClass([], v);
        ScoreClass(t, v) + tail;
      }
    } else if t[0].score < x.score {
      calc {
        ScoreClass(Insert(x, t), v);
        ScoreClass([x] + t, v);
        { FilterCons(x, t, HasScore(v)); }
        tail + ScoreClass(t, v);
        { if x.score == v { ScoreClassBelow(t, v); } }
        ScoreClass(t, v) + tail;
      }
    } else {
      var a, t' := t[0], t[1..];
      var head := if a.score == v then [a] else [];
      assert SortedDesc(t');
      calc {
        ScoreClass(Insert(x, t), v);
        ScoreClass([a] + Insert(x, t'), v);
        { FilterCons(a, Insert(x, t'), HasScore(v)); }
        head + ScoreClass(Insert(x, t'), v);
        { ScoreClassInsert(x, t', v); }
        head + (ScoreClass(t', v) + tail);
        (head + ScoreClass(t', v)) + tail;
        { FilterCons(a, t', HasScore(v)); assert t == [a] + t'; }
        ScoreClass(t, v) + tail;
      }
    }
  }

  /** Stability: for every score, the pairs with that score come out of
      `SortDesc` in the order they went in. */
  lemma {:induction false} SortDescStable(s: seq<Prediction>, v: real)
    ensures ScoreClass(SortDesc(s), v) == ScoreClass(s, v)
  {
    if s != [] {
      var init, last := s[..|s| - 1], s[|s| - 1];
      var tail := if last.score == v then [last] else [];
      calc {
        ScoreClass(SortDesc(s), v);
        ScoreClass(Insert(last, SortDesc(init)), v);
        { ScoreClassInsert(last, SortDesc(init), v); }
        ScoreClass(SortDesc(init), v) + tail;
        { SortDescStable(init, v); }
        ScoreClass(init, v) + tail;
        { assert ScoreClass([last], v) == tail + ScoreClass([], v); }
        ScoreClass(init, v) + ScoreClass([last], v);
        { FilterAppend(init, [last], HasScore(v)); }
        ScoreClass(init + [last], v);
        { assert s == init + [last]; }
        ScoreClass(s, v);
      }
    }
  }

  /** Two pairs with equal scores that `SortDesc` lists in some order were
      listed in that order in its input. */
  lemma TiesKeepInputOrder(s: seq<Prediction>, x: Prediction, y: Prediction)
    requires x.score == y.score
    requires Before(SortDesc(s), x, y)
    ensures Before(s, x, y)
  {
    FilterBefore(SortDesc(s), HasScore(x.score), x, y);
    SortDescStable(s, x.score);
    FilterBefore(s, HasScore(x.score), x, y);
  }

  /** One step of insertion sort: when `j` is the first position of the
      sorted prefix whose score is below that of `input[i]`, putting
      `input[i]` there sorts one element more. */
  lemma InsertionStep(input: seq<Prediction>, i: nat, j: nat)
    requires j <= i < |input|
    requires forall k :: j <= k < i ==> SortDesc(input[..i])[k].score < input[i].score
    requires j > 0 ==> SortDesc(input[..i])[j - 1].score >= input[i].score
    ensures SortDesc(input[..i + 1])
            == SortDesc(input[..i])[..j] + [input[i]] + SortDesc(input[..i])[j..]
  {
    var done := SortDesc(input[..i]);
    assert input[..i + 1][..i] == input[..i];
    InsertAt(input[i], done, j);
  }

  /** Moves `a[i]` left past the elements of `a[..i]` that score strictly
      lower, shifting them one place right; returns where it landed. */
  method ShiftIntoPlace(a: array<Prediction>, i: nat) returns (j: nat)
    requires i < a.Length
    modifies a
    ensures j <= i
    ensures a[..i + 1] == old(a[..i])[..j] + [old(a[i])] + old(a[..i])[j..]
    ensures forall k :: i < k < a.Length ==> a[k] == old(a[k])
    ensures forall k :: j <= k < i ==> old(a[k]).score < old(a[i]).score
    ensures j > 0 ==> old(a[j - 1]).score >= old(a[i]).score
  {
    var x := a[i];
    ghost var done := a[..i];
    j := i;
    while j > 0 && a[j - 1].score < x.score
      invariant 0 <= j <= i
      invariant forall k :: 0 <= k < j ==> a[k] == done[k]
      invariant forall k :: j < k <= i ==> a[k] == done[k - 1]
      invariant forall k :: i < k < a.Length ==> a[k] == old(a[k])
      invariant forall k :: j <= k < i ==> done[k].score < x.score
    {
      a[j] := a[j - 1];
      j := j - 1;
    }
    a[j] := x;
    assert a[..i + 1] == done[..j] + [x] + done[j..];
  }

  /** Sorts `a` in place by score, highest first, keeping equal scores in
      their original order (insertion sort). */
  method SortByScoreDescending(a: array<Prediction>)
    modifies a
    ensures a[..] == SortDesc(old(a[..]))
    ensures SortedDesc(a[..]) && multiset(a[..]) == multiset(old(a[..]))
  {
    ghost var input := a[..];
    var i := 0;
    while i < a.Length
      invariant 0 <= i <= a.Length
      invariant a[..i] == SortDesc(input[..i])
      invariant forall k :: i <= k < a.Length ==> a[k] == input[k]
    {
      var j := ShiftIntoPlace(a, i);
      InsertionStep(input, i, j);
      i := i + 1;
    }
    assert input[..a.Length] == input;
  }
}
