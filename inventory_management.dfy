/**
 * Day 2 (2/src/main.rs): box IDs, the checksum built from the IDs that
 * hold some letter exactly twice or exactly three times, and the common
 * letters of the two IDs that differ in exactly one position.  IDs are
 * ASCII, so the source's character positions and byte offsets agree.
 */
module InventoryManagement {
  import opened Wrappers

  /** How many times `c` occurs in `s`. */
  function Count(s: string, c: char): nat
  {
    if s == [] then 0 else Count(s[1..], c) + (if s[0] == c then 1 else 0)
  }

  lemma {:induction false} CountSplit(s: string, c: char, i: nat)
    requires i <= |s|
    ensures Count(s, c) == Count(s[..i], c) + Count(s[i..], c)
    decreases i
  {
    if i > 0 {
      CountSplit(s[1..], c, i - 1);
      assert s[1..][..i - 1] == s[..i][1..];
      assert s[1..][i - 1..] == s[i..];
    } else {
      assert s[..0] == [] && s[0..] == s;
    }
  }

  lemma {:induction false} CountAbsent(s: string, c: char)
    ensures c !in s <==> Count(s, c) == 0
    decreases |s|
  {
    if s != [] {
      CountAbsent(s[1..], c);
      assert c in s <==> s[0] == c || c in s[1..];
    }
  }

  /** The distinct letters of `s` occurring exactly `n` times. */
  function Occurring(s: string, n: nat): set<char>
  {
    set c | c in s && Count(s, c) == n
  }

  /**
   * `id_letter_count`: for each position holding a letter not seen before,
   * count that letter from there on and tally a count of 2 or 3.  The
   * result is the number of distinct letters occurring exactly twice, and
   * the number occurring exactly three times.
   */
  method IdLetterCount(id: string) returns (two: nat, three: nat)
    ensures two == |Occurring(id, 2)| && three == |Occurring(id, 3)|
  {
    var seen: set<char> := {};
    two, three := 0, 0;
    for i := 0 to |id|
      invariant forall d :: d in seen <==> d in id[..i]
      invariant two == |Tally(id, seen, 2)| && three == |Tally(id, seen, 3)|
    {
      var c := id[i];
      SeenStep(id, seen, i);
      if c !in seen {
        var count := Count(id[i..], c);
        FirstOccurrence(id, i);
        TallyAdd(id, seen, c, 2);
        TallyAdd(id, seen, c, 3);
        if count == 2 {
          two := two + 1;
        } else if count == 3 {
          three := three + 1;
        }
        seen := seen + {c};
      }
    }
    assert id[..|id|] == id;
    TallyAll(id, seen, 2);
    TallyAll(id, seen, 3);
  }

  /** Once every letter of `id` has been seen, the tally is the set of letters occurring `n` times. */
  lemma TallyAll(id: string, seen: set<char>, n: nat)
    requires forall d :: d in seen <==> d in id
    ensures Tally(id, seen, n) == Occurring(id, n)
  {
  }

  /** Adding the letter at position `i` to the letters of the prefix before it gives those of the prefix through it. */
  lemma SeenStep(id: string, seen: set<char>, i: nat)
    requires i < |id| && forall d :: d in seen <==> d in id[..i]
    ensures forall d :: d in seen + {id[i]} <==> d in id[..i + 1]
    ensures id[i] in seen <==> id[i] in id[..i]
  {
    assert id[..i + 1] == id[..i] + [id[i]];
  }

  /** Counting from a letter's first position counts all of its occurrences. */
  lemma FirstOccurrence(id: string, i: nat)
    requires i < |id| && id[i] !in id[..i]
    ensures Count(id[i..], id[i]) == Count(id, id[i])
  {
    CountSplit(id, id[i], i);
    CountAbsent(id[..i], id[i]);
  }

  /** The letters of `seen` occurring exactly `n` times in `id`. */
  ghost function Tally(id: string, seen: set<char>, n: nat): set<char>
  {
    set d | d in seen && Count(id, d) == n
  }

  lemma TallyAdd(id: string, seen: set<char>, c: char, n: nat)
    requires c !in seen
    ensures |Tally(id, seen + {c}, n)| == |Tally(id, seen, n)| + (if Count(id, c) == n then 1 else 0)
  {
    assert Tally(id, seen + {c}, n) == Tally(id, seen, n) + (if Count(id, c) == n then {c} else {});
    assert c !in Tally(id, seen, n);
  }

  /** The IDs of `ids` holding some letter exactly `n` times. */
  function WithExactly(ids: seq<string>, n: nat): nat
  {
    if ids == [] then 0
    else WithExactly(ids[..|ids| - 1], n) + (if Occurring(ids[|ids| - 1], n) != {} then 1 else 0)
  }

  /** Part A: the checksum, IDs with a pair times IDs with a triple. */
  method A(ids: seq<string>) returns (result: nat)
    ensures result == WithExactly(ids, 2) * WithExactly(ids, 3)
  {
    var two, three := 0, 0;
    for k := 0 to |ids|
      invariant two == WithExactly(ids[..k], 2) && three == WithExactly(ids[..k], 3)
    {
      assert ids[..k + 1][..k] == ids[..k];
      var idTwo, idThree := IdLetterCount(ids[k]);
      if idTwo > 0 {
        two := two + 1;
      }
      if idThree > 0 {
        three := three + 1;
      }
    }
    assert ids[..|ids|] == ids;
    result := two * three;
  }

  /** The number of positions of `left` where `right` holds another letter. */
  function Differences(left: string, right: string): nat
    requires |left| <= |right|
  {
    if left == [] then 0 else Differences(left[1..], right[1..]) + (if left[0] != right[0] then 1 else 0)
  }

  /** The letters of `left` that `right` repeats at the same position, in order. */
  function Common(left: string, right: string): string
    requires |left| <= |right|
  {
    if left == [] then [] else (if left[0] == right[0] then [left[0]] else []) + Common(left[1..], right[1..])
  }

  /**
   * Every position either differs or contributes its letter to the common
   * part, and no position differs exactly when `left` is a prefix of `right`.
   */
  lemma {:induction false} DiffCommonSplit(left: string, right: string)
    requires |left| <= |right|
    ensures Differences(left, right) + |Common(left, right)| == |left|
    ensures Differences(left, right) == 0 <==> left == right[..|left|]
    ensures Differences(left, right) == 0 <==> Common(left, right) == left
    decreases |left|
  {
    if left != [] {
      DiffCommonSplit(left[1..], right[1..]);
      assert left == [left[0]] + left[1..];
      assert right[..|left|] == [right[0]] + right[1..][..|left| - 1];
      if Common(left, right) == left {
        assert |Common(left, right)| == |left|;
      }
    }
  }

  /** Positions up to `i` split the same way, so a loop can build both at once. */
  lemma {:induction false} DiffCommonPrefix(left: string, right: string, i: nat)
    requires i < |left| <= |right|
    ensures Differences(left[..i + 1], right) == Differences(left[..i], right) + (if left[i] != right[i] then 1 else 0)
    ensures Common(left[..i + 1], right) == Common(left[..i], right) + (if left[i] == right[i] then [left[i]] else [])
    decreases i
  {
    if i > 0 {
      DiffCommonPrefix(left[1..], right[1..], i - 1);
      assert left[..i + 1][1..] == left[1..][..i];
      assert left[..i][1..] == left[1..][..i - 1];
    }
  }

  /**
   * `id_diff`: walks `left`, counting the positions where `right` differs
   * and collecting the letters where it agrees.  `right` must be at least
   * as long as `left` (the source unwraps its `nth` character).
   */
  method IdDiff(left: string, right: string) returns (diff: nat, same: string)
    requires |left| <= |right|
    ensures diff == Differences(left, right) && same == Common(left, right)
    ensures diff + |same| == |left|
  {
    diff, same := 0, [];
    for i := 0 to |left|
      invariant diff == Differences(left[..i], right) && same == Common(left[..i], right)
    {
      DiffCommonPrefix(left, right, i);
      if left[i] != right[i] {
        diff := diff + 1;
      } else {
        same := same + [left[i]];
      }
    }
    assert left[..|left|] == left;
    DiffCommonSplit(left, right);
  }

  /** All IDs have the same length, as in the puzzle input. */
  predicate SameLength(ids: seq<string>)
  {
    forall i, j :: 0 <= i < |ids| && 0 <= j < |ids| ==> |ids[i]| == |ids[j]|
  }

  /** `ids[i]` has some partner differing in exactly one position. */
  predicate HasNearTwin(ids: seq<string>, i: nat)
    requires SameLength(ids) && i < |ids|
  {
    exists j :: 0 <= j < |ids| && Differences(ids[i], ids[j]) == 1
  }

  /**
   * Part B: for the first ID that has a partner differing in exactly one
   * position, the letters it shares with its first such partner.
   */
  method B(ids: seq<string>) returns (r: Option<string>)
    requires SameLength(ids)
    ensures r.None? <==> forall i :: 0 <= i < |ids| ==> !HasNearTwin(ids, i)
    ensures r.Some? ==> exists i, j :: (0 <= i < |ids| && 0 <= j < |ids| &&
      (forall i' :: 0 <= i' < i ==> !HasNearTwin(ids, i')) &&
      (forall j' :: 0 <= j' < j ==> Differences(ids[i], ids[j']) != 1) &&
      Differences(ids[i], ids[j]) == 1 && r.value == Common(ids[i], ids[j]))
    ensures r.Some? ==> |r.value| + 1 == |ids[0]|
  {
    for i := 0 to |ids|
      invariant forall i' :: 0 <= i' < i ==> !HasNearTwin(ids, i')
    {
      for j := 0 to |ids|
        invariant forall j' :: 0 <= j' < j ==> Differences(ids[i], ids[j']) != 1
      {
        var diff, same := IdDiff(ids[i], ids[j]);
        if diff == 1 {
          assert HasNearTwin(ids, i);
          return Some(same);
        }
      }
    }
    return None;
  }
}
