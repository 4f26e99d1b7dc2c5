/** The three pieces of Swift's String API that the detector's decision logic
    relies on: `lowercased()`, `contains(_:)` and `joined(separator:)`,
    stated over `seq<char>`. Lowercasing covers the ASCII letters only. */
module SwiftText {

  type Text = seq<char>

  /** `Character.lowercased()` restricted to ASCII: 'A'..'Z' map to 'a'..'z',
      every other character is left alone. */
  function LowerChar(c: char): (r: char)
    ensures 'A' <= c <= 'Z' ==> 'a' <= r <= 'z' && r as int - c as int == 32
    ensures !('A' <= c <= 'Z') ==> r == c
    ensures !('A' <= r <= 'Z')
  {
    if 'A' <= c <= 'Z' then (c as int + 32) as char else c
  }

  /** `String.lowercased()`, character by character. */
  function Lower(s: Text): (r: Text)
    ensures |r| == |s|
    ensures forall i :: 0 <= i < |s| ==> r[i] == LowerChar(s[i])
  {
    if s == [] then [] else [LowerChar(s[0])] + Lower(s[1..])
  }

  /** Lowercasing a lowercased string changes nothing more. */
  lemma LowerIdempotent(s: Text)
    ensures Lower(Lower(s)) == Lower(s)
  {
  }

  predicate IsPrefix(p: Text, s: Text)
  {
    |p| <= |s| && s[..|p|] == p
  }

  /** `s.contains(k)`: `k` occurs somewhere in `s` as a contiguous run,
      tried at every starting position from the left. */
  function Contains(s: Text, k: Text): (r: bool)
    ensures r ==> |k| <= |s|
    ensures IsPrefix(k, s) ==> r
    decreases |s|
  {
    IsPrefix(k, s) || (|s| > 0 && Contains(s[1..], k))
  }

  /** An occurrence of `k` in `s` at position `i`. */
  ghost predicate OccursAt(s: Text, k: Text, i: int)
  {
    0 <= i && i + |k| <= |s| && s[i..i + |k|] == k
  }

  /** The scan above finds `k` exactly when it occurs at some position. */
  lemma {:induction false} ContainsIffOccurs(s: Text, k: Text)
    ensures Contains(s, k) <==> exists i :: OccursAt(s, k, i)
    decreases |s|
  {
    if IsPrefix(k, s) {
      assert OccursAt(s, k, 0);
    } else {
      if |s| > 0 {
        ContainsIffOccurs(s[1..], k);
        if exists i :: OccursAt(s[1..], k, i) {
          var i :| OccursAt(s[1..], k, i);
          assert s[i + 1..i + 1 + |k|] == s[1..][i..i + |k|];
          assert OccursAt(s, k, i + 1);
        }
      }
      if exists i :: OccursAt(s, k, i) {
        var i :| OccursAt(s, k, i);
        assert i != 0;
        assert s[1..][i - 1..i - 1 + |k|] == s[i..i + |k|];
        assert OccursAt(s[1..], k, i - 1);
      }
    }
  }

  /** `parts.joined(separator: " ")`: the parts in order, one space between
      neighbours, nothing before the first or after the last. */
  function JoinWithSpace(parts: seq<Text>): (r: Text)
    ensures |parts| >= 1 ==> IsPrefix(parts[0], r)
    ensures |parts| >= 2 ==> |parts[0]| < |r| && r[|parts[0]|] == ' '
  {
    if |parts| == 0 then []
    else if |parts| == 1 then parts[0]
    else parts[0] + [' '] + JoinWithSpace(parts[1..])
  }

  /** Joining two non-empty lists of parts is joining each and putting one
      space between the two results, whatever the parts contain. */
  lemma {:induction false} JoinAppend(a: seq<Text>, b: seq<Text>)
    requires |a| >= 1 && |b| >= 1
    ensures JoinWithSpace(a + b) == JoinWithSpace(a) + [' '] + JoinWithSpace(b)
  {
    if |a| == 1 {
      assert (a + b)[0] == a[0] && (a + b)[1..] == b;
    } else {
      JoinAppend(a[1..], b);
      assert (a + b)[0] == a[0] && (a + b)[1..] == a[1..] + b;
    }
  }

  predicate HasNoSpace(t: Text)
  {
    forall i :: 0 <= i < |t| ==> t[i] != ' '
  }

  /** Cutting a string at every single space (the inverse partner of
      `JoinWithSpace`); a string without spaces is one piece. */
  function SplitOnSpace(s: Text): (r: seq<Text>)
    ensures |r| >= 1
    ensures forall j :: 0 <= j < |r| ==> HasNoSpace(r[j])
  {
    if |s| == 0 then [[]]
    else if s[0] == ' ' then [[]] + SplitOnSpace(s[1..])
    else
      var rest := SplitOnSpace(s[1..]);
      [[s[0]] + rest[0]] + rest[1..]
  }

  lemma {:induction false} SplitWord(p: Text)
    requires HasNoSpace(p)
    ensures SplitOnSpace(p) == [p]
  {
    if |p| > 0 {
      SplitWord(p[1..]);
      assert [p[0]] + p[1..] == p;
    }
  }

  lemma {:induction false} SplitWordThenSpace(p: Text, tail: Text)
    requires HasNoSpace(p)
    ensures SplitOnSpace(p + [' '] + tail) == [p] + SplitOnSpace(tail)
  {
    if |p| == 0 {
      assert p + [' '] + tail == [' '] + tail;
    } else {
      SplitWordThenSpace(p[1..], tail);
      assert (p + [' '] + tail)[1..] == p[1..] + [' '] + tail;
      assert [p[0]] + p[1..] == p;
    }
  }

  /** Joining space-free parts and cutting the result at its spaces gives
      the parts back, so the separator is a single space between each pair
      and nothing is added or dropped. */
  lemma {:induction false} SplitJoinRoundTrip(parts: seq<Text>)
    requires |parts| >= 1
    requires forall j :: 0 <= j < |parts| ==> HasNoSpace(parts[j])
    ensures SplitOnSpace(JoinWithSpace(parts)) == parts
  {
    if |parts| == 1 {
      SplitWord(parts[0]);
    } else {
      SplitJoinRoundTrip(parts[1..]);
      SplitWordThenSpace(parts[0], JoinWithSpace(parts[1..]));
      assert [parts[0]] + parts[1..] == parts;
    }
  }

  /** The joined text is as long as its parts together plus one space
      between each pair. */
  lemma {:induction false} JoinLength(parts: seq<Text>)
    requires |parts| >= 1
    ensures |JoinWithSpace(parts)| == TotalLength(parts) + |parts| - 1
  {
    if |parts| > 1 {
      JoinLength(parts[1..]);
    }
  }

  function TotalLength(parts: seq<Text>): nat
  {
    if parts == [] then 0 else |parts[0]| + TotalLength(parts[1..])
  }
}
