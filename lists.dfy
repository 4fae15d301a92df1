/** The two List<T> operations the hand relies on: IndexOf (also what a
    transform's sibling index is) and Remove, which deletes the first element
    equal to its argument and reports nothing when there is none. */
module Lists {

  /** No element occurs twice: cards and scene objects are distinct identities. */
  ghost predicate Distinct<T>(s: seq<T>) {
    forall i, j :: 0 <= i < j < |s| ==> s[i] != s[j]
  }

  /** Index of the first occurrence of `x` in `s`. */
  function IndexOf<T(==)>(s: seq<T>, x: T): (i: nat)
    requires x in s
    ensures i < |s| && s[i] == x
    ensures forall j :: 0 <= j < i ==> s[j] != x
  {
    if s[0] == x then 0 else 1 + IndexOf(s[1..], x)
  }

  /** List<T>.Remove: drop the first occurrence of `x`, if any. */
  function RemoveFirst<T(==)>(s: seq<T>, x: T): (r: seq<T>)
    ensures x !in s ==> r == s
    ensures x in s ==> |r| == |s| - 1
  {
    if s == [] then []
    else if s[0] == x then s[1..]
    else [s[0]] + RemoveFirst(s[1..], x)
  }

  /** Remove cuts out exactly the first occurrence and keeps everything
      before and after it in order. */
  lemma {:induction false} RemoveFirstSplice<T>(s: seq<T>, x: T)
    requires x in s
    ensures RemoveFirst(s, x) == s[..IndexOf(s, x)] + s[IndexOf(s, x) + 1..]
  {
    if s[0] != x {
      var tail := s[1..];
      assert x in tail;
      var k := IndexOf(tail, x);
      RemoveFirstSplice(tail, x);
      assert IndexOf(s, x) == k + 1;
      assert RemoveFirst(s, x) == [s[0]] + (tail[..k] + tail[k + 1..]);
      ConsSlices(s, k);
    }
  }

  lemma ConsSlices<T>(s: seq<T>, k: nat)
    requires k + 1 < |s|
    ensures [s[0]] + (s[1..][..k] + s[1..][k + 1..]) == s[..k + 1] + s[k + 2..]
  {
    assert [s[0]] + s[1..][..k] == s[..k + 1];
    assert s[1..][k + 1..] == s[k + 2..];
  }

  /** Insert `x` before position `k`, with `k` clamped to the end of `s`. */
  function InsertAt<T>(s: seq<T>, k: nat, x: T): (r: seq<T>)
    ensures |r| == |s| + 1
    ensures k <= |s| ==> r[k] == x && r[..k] == s[..k] && r[k + 1..] == s[k..]
    ensures k > |s| ==> r == s + [x]
  {
    if k <= |s| then s[..k] + [x] + s[k..] else s + [x]
  }

  lemma RemoveFirstMembers<T>(s: seq<T>, x: T, y: T)
    requires Distinct(s)
    ensures y in RemoveFirst(s, x) <==> y in s && y != x
  {
    if x in s {
      RemoveFirstSplice(s, x);
      if y in RemoveFirst(s, x) {
        RemovedCameFromList(s, x, y);
      }
      if y in s && y != x {
        OthersSurviveRemove(s, x, y);
      }
    }
  }

  lemma RemovedCameFromList<T>(s: seq<T>, x: T, y: T)
    requires Distinct(s) && x in s && y in RemoveFirst(s, x)
    ensures y in s && y != x
  {
    var i := IndexOf(s, x);
    RemoveFirstSplice(s, x);
    var j' := SpliceOrigin(s, i, y);
    if j' < i { assert s[j'] != s[i]; } else { assert s[i] != s[j']; }
  }

  lemma OthersSurviveRemove<T>(s: seq<T>, x: T, y: T)
    requires x in s && y in s && y != x
    ensures y in RemoveFirst(s, x)
  {
    var i := IndexOf(s, x);
    RemoveFirstSplice(s, x);
    var j :| 0 <= j < |s| && s[j] == y;
    SpliceKeeps(s, i, j);
  }

  /** Every element of s without its element i sits elsewhere in s. */
  lemma SpliceOrigin<T>(s: seq<T>, i: nat, y: T) returns (j': nat)
    requires i < |s| && y in s[..i] + s[i + 1..]
    ensures j' < |s| && j' != i && s[j'] == y
  {
    var r := s[..i] + s[i + 1..];
    var j :| 0 <= j < |r| && r[j] == y;
    j' := if j < i then j else j + 1;
  }

  /** Cutting out element i keeps every other element. */
  lemma SpliceKeeps<T>(s: seq<T>, i: nat, j: nat)
    requires i < |s| && j < |s| && j != i
    ensures s[j] in s[..i] + s[i + 1..]
  {
    var r := s[..i] + s[i + 1..];
    if j < i {
      assert r[j] == s[j];
    } else {
      assert r[j - 1] == s[j];
    }
  }

  /** Removing an element from a sequence without repetitions leaves one without repetitions. */
  lemma {:induction false} RemoveFirstDistinct<T>(s: seq<T>, x: T)
    requires Distinct(s)
    ensures Distinct(RemoveFirst(s, x))
  {
    if x in s {
      var i := IndexOf(s, x);
      var r := RemoveFirst(s, x);
      RemoveFirstSplice(s, x);
      forall a, b | 0 <= a < b < |r| ensures r[a] != r[b] {
        var a' := if a < i then a else a + 1;
        var b' := if b < i then b else b + 1;
        assert r[a] == s[a'] && r[b] == s[b'] && a' < b';
      }
    }
  }
}
