/** Go's byte strings and the few operations of Go's `strings` package that the
    subscription parser relies on: `Index` with a one-byte needle, `Split` on a
    one-byte separator, and `Replace(s, old, new, -1)`. */
module GoStrings {

  /** A Go string is a sequence of bytes. */
  type byte = b: int | 0 <= b < 256
  type Bytes = seq<byte>

  const LF: byte := 10          // '\n'
  const CR: byte := 13          // '\r'
  const Plus: byte := 43        // '+'
  const Dash: byte := 45        // '-'
  const Slash: byte := 47       // '/'
  const Colon: byte := 58       // ':'
  const Question: byte := 63    // '?'
  const Underscore: byte := 95  // '_'

  /** `strings.Index(s, string(c))`: the first position of `c` in `s`, or -1. */
  function IndexByte(s: Bytes, c: byte): (r: int)
    ensures r == -1 <==> c !in s
    ensures r != -1 ==> 0 <= r < |s| && s[r] == c && c !in s[..r]
  {
    if s == [] then -1
    else if s[0] == c then 0
    else
      var k := IndexByte(s[1..], c);
      assert s[1..] == s[..|s|][1..];
      if k == -1 then -1
      else
        assert s[..k + 1] == [s[0]] + s[1..][..k];
        k + 1
  }

  /** `strings.Join(parts, string(sep))`; the inverse of `Split`. */
  function Join(parts: seq<Bytes>, sep: byte): Bytes
  {
    if parts == [] then []
    else if |parts| == 1 then parts[0]
    else parts[0] + [sep] + Join(parts[1..], sep)
  }

  /** `strings.Split(s, string(sep))`: the maximal pieces of `s` between
      separators, always at least one (Split of "" is [""]). */
  function Split(s: Bytes, sep: byte): (r: seq<Bytes>)
    ensures |r| >= 1
    ensures forall i :: 0 <= i < |r| ==> sep !in r[i]
    decreases |s|
  {
    var i := IndexByte(s, sep);
    if i == -1 then [s] else [s[..i]] + Split(s[i + 1..], sep)
  }

  /** Joining the pieces of a split gives the string back. */
  lemma {:induction false} JoinSplit(s: Bytes, sep: byte)
    ensures Join(Split(s, sep), sep) == s
    decreases |s|
  {
    var i := IndexByte(s, sep);
    if i != -1 {
      var rest := Split(s[i + 1..], sep);
      JoinSplit(s[i + 1..], sep);
      JoinCons(s[..i], rest, sep);
      assert s == s[..i] + [sep] + s[i + 1..];
    }
  }

  /** Splitting a joined list gives the list back when no part holds the separator. */
  lemma {:induction false} SplitJoin(parts: seq<Bytes>, sep: byte)
    requires |parts| >= 1
    requires forall i :: 0 <= i < |parts| ==> sep !in parts[i]
    ensures Split(Join(parts, sep), sep) == parts
    decreases |parts|
  {
    if |parts| > 1 {
      var s := Join(parts, sep);
      var head := parts[0];
      assert s == head + [sep] + Join(parts[1..], sep);
      assert s[..|head|] == head;
      assert s[|head|] == sep;
      assert IndexByte(s, sep) == |head|;
      assert s[|head| + 1..] == Join(parts[1..], sep);
      SplitJoin(parts[1..], sep);
    }
  }

  /** The piece before the first separator, when there is one. */
  lemma SplitFirst(a: Bytes, sep: byte, b: Bytes)
    requires sep !in a
    ensures Split(a + [sep] + b, sep) == [a] + Split(b, sep)
  {
    var s := a + [sep] + b;
    assert s[|a|] == sep;
    assert IndexByte(s, sep) == |a|;
    assert s[..|a|] == a && s[|a| + 1..] == b;
  }

  /** Concatenation is associative. Stated over any element type, so that
      using it brings no facts about byte strings into the proof. */
  lemma Associative<T>(a: seq<T>, b: seq<T>, c: seq<T>)
    ensures a + (b + c) == (a + b) + c
  {
  }

  /** Joining a part in front of a non-empty list. */
  lemma JoinCons(p: Bytes, rest: seq<Bytes>, sep: byte)
    requires rest != []
    ensures Join([p] + rest, sep) == p + [sep] + Join(rest, sep)
  {
    assert ([p] + rest)[1..] == rest;
  }

  /** Splitting a join whose last part may hold the separator gives the
      other parts back, followed by the pieces of the last one. */
  lemma {:induction false} SplitJoinPrefix(parts: seq<Bytes>, last: Bytes, sep: byte)
    requires forall i :: 0 <= i < |parts| ==> sep !in parts[i]
    ensures Split(Join(parts + [last], sep), sep) == parts + Split(last, sep)
    decreases |parts|
  {
    if parts != [] {
      var p0, ps := parts[0], parts[1..];
      var j := Join(ps + [last], sep);
      var tail := Split(last, sep);
      assert Join(parts + [last], sep) == p0 + [sep] + j by {
        assert parts + [last] == [p0] + (ps + [last]);
        JoinCons(p0, ps + [last], sep);
      }
      assert Split(p0 + [sep] + j, sep) == [p0] + Split(j, sep) by {
        SplitFirst(p0, sep, j);
      }
      assert Split(j, sep) == ps + tail by {
        SplitJoinPrefix(ps, last, sep);
      }
      assert parts == [p0] + ps;
      Associative([p0], ps, tail);
    } else {
      assert parts + [last] == [last];
    }
  }

  /** `p` occurs in `s` starting at position `i`. */
  predicate OccursAt(p: Bytes, s: Bytes, i: nat)
  {
    i + |p| <= |s| && s[i..i + |p|] == p
  }

  /** `strings.Replace(s, pat, rep, -1)`: every leftmost, non-overlapping
      occurrence of `pat`, scanning from the left, is replaced by `rep`. */
  function ReplaceAll(s: Bytes, pat: Bytes, rep: Bytes): (r: Bytes)
    requires |pat| > 0
    ensures |rep| <= |pat| ==> |r| <= |s|
    decreases |s|
  {
    if |s| < |pat| then s
    else if s[..|pat|] == pat then rep + ReplaceAll(s[|pat|..], pat, rep)
    else [s[0]] + ReplaceAll(s[1..], pat, rep)
  }

  /** With no occurrence of the pattern, Replace leaves the string alone. */
  lemma {:induction false} ReplaceAbsent(s: Bytes, pat: Bytes, rep: Bytes)
    requires |pat| > 0
    requires forall i :: 0 <= i <= |s| ==> !OccursAt(pat, s, i)
    ensures ReplaceAll(s, pat, rep) == s
    decreases |s|
  {
    if |s| >= |pat| {
      assert !OccursAt(pat, s, 0);
      assert s[..|pat|] == s[0..0 + |pat|];
      forall i | 0 <= i <= |s[1..]|
        ensures !OccursAt(pat, s[1..], i)
      {
        assert !OccursAt(pat, s, i + 1);
        if i + |pat| <= |s[1..]| {
          assert s[1..][i..i + |pat|] == s[i + 1..i + 1 + |pat|];
        }
      }
      ReplaceAbsent(s[1..], pat, rep);
      assert s == [s[0]] + s[1..];
    }
  }

  /** Replacing a single byte by a single byte maps the string position by position. */
  lemma {:induction false} ReplaceByte(s: Bytes, a: byte, b: byte)
    ensures |ReplaceAll(s, [a], [b])| == |s|
    ensures forall i :: 0 <= i < |s| ==>
      ReplaceAll(s, [a], [b])[i] == (if s[i] == a then b else s[i])
    decreases |s|
  {
    if |s| >= 1 {
      ReplaceByte(s[1..], a, b);
      var r := ReplaceAll(s, [a], [b]);
      var t := ReplaceAll(s[1..], [a], [b]);
      assert s[..1] == [s[0]];
      assert r == [if s[0] == a then b else s[0]] + t;
      forall i | 0 <= i < |s|
        ensures r[i] == (if s[i] == a then b else s[i])
      {
        if i > 0 { assert r[i] == t[i - 1] && s[i] == s[1..][i - 1]; }
      }
    }
  }

  /** Removing a pattern that starts the string removes that occurrence and
      carries on with the rest. */
  lemma ReplaceAtStart(p: Bytes, s: Bytes, rep: Bytes)
    requires |p| > 0
    ensures ReplaceAll(p + s, p, rep) == rep + ReplaceAll(s, p, rep)
  {
    assert (p + s)[..|p|] == p;
    assert (p + s)[|p|..] == s;
  }
}
