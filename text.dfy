/** Python's `str.split(sep)` and `sep.join(parts)` for a non-empty separator,
    with the facts the report decoder relies on. */
module Text {

  /** `sep` occurs in `s` starting at index `i`. */
  predicate OccursAt(s: string, sep: string, i: int) {
    0 <= i && i + |sep| <= |s| && s[i..i + |sep|] == sep
  }

  /** `sep` occurs somewhere in `s` (Python's `sep in s`). */
  ghost predicate Contains(s: string, sep: string) {
    exists i :: OccursAt(s, sep, i)
  }

  /** No non-empty proper prefix of `sep` is also a suffix of it, so two
      occurrences of `sep` can never overlap. */
  predicate Unbordered(sep: string) {
    forall m :: 0 < m < |sep| ==> sep[..m] != sep[|sep| - m..]
  }

  /** Number of non-overlapping occurrences of `sep`, scanning left to right
      (Python's `s.count(sep)`). */
  function CountOccurrences(s: string, sep: string): nat
    requires sep != []
    decreases |s|
  {
    if |s| < |sep| then 0
    else if s[..|sep|] == sep then 1 + CountOccurrences(s[|sep|..], sep)
    else CountOccurrences(s[1..], sep)
  }

  /** Python's `s.split(sep)`: cut at every leftmost non-overlapping
      occurrence of `sep`. The empty string splits into `[""]`. */
  function Split(s: string, sep: string): (pieces: seq<string>)
    requires sep != []
    ensures |pieces| >= 1
    ensures pieces[0] <= s
    decreases |s|
  {
    if |s| < |sep| then [s]
    else if s[..|sep|] == sep then [[]] + Split(s[|sep|..], sep)
    else
      var rest := Split(s[1..], sep);
      [[s[0]] + rest[0]] + rest[1..]
  }

  /** Python's `sep.join(parts)`. */
  function Join(parts: seq<string>, sep: string): string
    decreases |parts|
  {
    if |parts| == 0 then []
    else if |parts| == 1 then parts[0]
    else parts[0] + sep + Join(parts[1..], sep)
  }

  /** Splitting gives one piece more than there are occurrences of `sep`. */
  lemma {:induction false} SplitCount(s: string, sep: string)
    requires sep != []
    ensures |Split(s, sep)| == CountOccurrences(s, sep) + 1
    decreases |s|
  {
    if |s| < |sep| {
    } else if s[..|sep|] == sep {
      SplitCount(s[|sep|..], sep);
    } else {
      SplitCount(s[1..], sep);
    }
  }

  /** Re-joining the pieces with the separator gives back the input exactly. */
  lemma {:induction false} JoinSplit(s: string, sep: string)
    requires sep != []
    ensures Join(Split(s, sep), sep) == s
    decreases |s|
  {
    if |s| < |sep| {
    } else if s[..|sep|] == sep {
      var rest := Split(s[|sep|..], sep);
      JoinSplit(s[|sep|..], sep);
      assert ([[]] + rest)[1..] == rest;
      assert s == s[..|sep|] + s[|sep|..];
    } else {
      var rest := Split(s[1..], sep);
      JoinSplit(s[1..], sep);
      var pieces := [[s[0]] + rest[0]] + rest[1..];
      assert pieces[1..] == rest[1..];
      if |rest| > 1 {
        assert Join(rest, sep) == rest[0] + sep + Join(rest[1..], sep);
      }
      assert s == [s[0]] + s[1..];
    }
  }

  /** Splitting on a separator that occurs nowhere gives the input back whole. */
  lemma {:induction false} SplitWhole(s: string, sep: string)
    requires sep != []
    requires !Contains(s, sep)
    ensures Split(s, sep) == [s]
    decreases |s|
  {
    if |s| >= |sep| {
      assert !OccursAt(s, sep, 0);
      var t := s[1..];
      forall i | 0 <= i ensures !OccursAt(t, sep, i) {
        assert !OccursAt(s, sep, i + 1);
        if i + |sep| <= |t| {
          assert t[i..i + |sep|] == s[i + 1..i + 1 + |sep|];
        }
      }
      SplitWhole(t, sep);
      assert [s[0]] + t == s;
    }
  }

  /** When the first occurrence of `sep` starts at `k`, the first piece is
      `s[..k]` and the rest is the split of what follows that occurrence. */
  lemma {:induction false} SplitAt(s: string, sep: string, k: nat)
    requires sep != []
    requires OccursAt(s, sep, k)
    requires forall i :: 0 <= i < k ==> !OccursAt(s, sep, i)
    ensures Split(s, sep) == [s[..k]] + Split(s[k + |sep|..], sep)
    decreases k
  {
    if k == 0 {
      assert s[..|sep|] == sep;
    } else {
      assert !OccursAt(s, sep, 0);
      var t := s[1..];
      forall i | 0 <= i < k - 1 ensures !OccursAt(t, sep, i) {
        assert !OccursAt(s, sep, i + 1);
        if i + |sep| <= |t| {
          assert t[i..i + |sep|] == s[i + 1..i + 1 + |sep|];
        }
      }
      assert t[k - 1..k - 1 + |sep|] == s[k..k + |sep|];
      SplitAt(t, sep, k - 1);
      assert t[k - 1 + |sep|..] == s[k + |sep|..];
      assert [s[0]] + t[..k - 1] == s[..k];
    }
  }

  /** No piece of a split contains the separator. */
  lemma {:induction false} SplitPiecesFree(s: string, sep: string)
    requires sep != []
    ensures forall k :: 0 <= k < |Split(s, sep)| ==> !Contains(Split(s, sep)[k], sep)
    decreases |s|
  {
    if |s| < |sep| {
      assert forall i :: !OccursAt(s, sep, i);
    } else if s[..|sep|] == sep {
      SplitPiecesFree(s[|sep|..], sep);
      assert forall i :: !OccursAt([], sep, i);
    } else {
      var t := s[1..];
      var rest := Split(t, sep);
      SplitPiecesFree(t, sep);
      var head := [s[0]] + rest[0];
      assert rest[0] == t[..|rest[0]|];
      assert head == s[..|head|];
      forall i | 0 <= i ensures !OccursAt(head, sep, i) {
        if i == 0 {
          if |sep| <= |head| {
            assert head[..|sep|] == s[..|sep|];
          }
        } else {
          assert !OccursAt(rest[0], sep, i - 1);
          if i + |sep| <= |head| {
            assert head[i..i + |sep|] == rest[0][i - 1..i - 1 + |sep|];
          }
        }
      }
    }
  }

  /** In `p + sep + u`, no occurrence of an unbordered `sep` starts inside `p`
      when `p` itself does not contain it. */
  lemma NoEarlyOccurrence(p: string, sep: string, u: string, i: int)
    requires sep != [] && Unbordered(sep) && !Contains(p, sep)
    requires 0 <= i < |p|
    ensures !OccursAt(p + sep + u, sep, i)
  {
    var s := p + sep + u;
    var n := |sep|;
    if i + n <= |p| {
      assert s[i..i + n] == p[i..i + n];
      assert !OccursAt(p, sep, i);
    } else {
      var m := i + n - |p|;
      assert sep[..m] != sep[n - m..];
      assert s[i..i + n][n - m..] == sep[..m];
    }
  }

  /** Splitting undoes joining when no part contains the separator and the
      separator cannot overlap itself. */
  lemma {:induction false} SplitJoin(parts: seq<string>, sep: string)
    requires sep != [] && Unbordered(sep) && |parts| >= 1
    requires forall k :: 0 <= k < |parts| ==> !Contains(parts[k], sep)
    ensures Split(Join(parts, sep), sep) == parts
    decreases |parts|
  {
    if |parts| == 1 {
      SplitWhole(parts[0], sep);
    } else {
      var p, rest := parts[0], parts[1..];
      var u := Join(rest, sep);
      var s := p + sep + u;
      assert Join(parts, sep) == s;
      forall i | 0 <= i < |p| ensures !OccursAt(s, sep, i) {
        NoEarlyOccurrence(p, sep, u, i);
      }
      assert s[|p|..|p| + |sep|] == sep;
      SplitAt(s, sep, |p|);
      assert s[..|p|] == p;
      assert s[|p| + |sep|..] == u;
      SplitJoin(rest, sep);
      assert parts == [p] + rest;
    }
  }

  /** For a one-character separator the occurrences are that character's
      occurrences. */
  lemma {:induction false} CountSingle(s: string, c: char)
    ensures CountOccurrences(s, [c]) == multiset(s)[c]
    decreases |s|
  {
    if |s| >= 1 {
      CountSingle(s[1..], c);
      assert s == [s[0]] + s[1..];
      assert multiset(s) == multiset([s[0]]) + multiset(s[1..]);
      assert (s[..1] == [c]) == (s[0] == c);
    }
  }

  /** Joining pieces around a character that is not part of `sep` creates no
      occurrence of `sep`. */
  lemma FreeAround(a: string, c: char, b: string, sep: string)
    requires sep != [] && c !in sep
    requires !Contains(a, sep) && !Contains(b, sep)
    ensures !Contains(a + [c] + b, sep)
  {
    var s := a + [c] + b;
    var n := |sep|;
    forall i | 0 <= i ensures !OccursAt(s, sep, i) {
      if i + n <= |a| {
        assert s[i..i + n] == a[i..i + n];
        assert !OccursAt(a, sep, i);
      } else if i > |a| {
        assert !OccursAt(b, sep, i - |a| - 1);
        if i + n <= |s| {
          assert s[i..i + n] == b[i - |a| - 1..i - |a| - 1 + n];
        }
      } else if i + n <= |s| {
        assert s[i..i + n][|a| - i] == c;
        assert sep[|a| - i] in sep;
      }
    }
  }

  /** Joining `sep`-free parts with a character outside `sep` gives a
      `sep`-free string. */
  lemma {:induction false} JoinFree(parts: seq<string>, c: char, sep: string)
    requires sep != [] && c !in sep
    requires forall k :: 0 <= k < |parts| ==> !Contains(parts[k], sep)
    ensures !Contains(Join(parts, [c]), sep)
    decreases |parts|
  {
    if |parts| == 0 {
      assert forall i :: !OccursAt([], sep, i);
    } else if |parts| > 1 {
      JoinFree(parts[1..], c, sep);
      FreeAround(parts[0], c, Join(parts[1..], [c]), sep);
    }
  }
}
