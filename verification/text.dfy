/** The Python string operations the notifier relies on: `p in s`,
    `str.split(sep)`, `sep.join`, `str.strip()` and a one-character
    `str.replace`. Strings are sequences of Unicode code points, as in Python. */
module Text {
  import opened Types

  /** `p` occurs in `s` starting at index `i`. */
  predicate OccursAt(s: string, p: string, i: int) {
    0 <= i && i + |p| <= |s| && s[i..i + |p|] == p
  }

  /** The first index at or after `k` where `p` occurs in `s`: Python's
      `s.find(p, k)` with None in place of -1. */
  function IndexFrom(s: string, p: string, k: nat): (r: Option<nat>)
    ensures r.Some? ==> k <= r.value && OccursAt(s, p, r.value)
    ensures r.Some? ==> forall j :: k <= j < r.value ==> !OccursAt(s, p, j)
    ensures r.None? ==> forall j :: k <= j ==> !OccursAt(s, p, j)
    decreases |s| - k
  {
    if k + |p| > |s| then None
    else if s[k..k + |p|] == p then Some(k)
    else IndexFrom(s, p, k + 1)
  }

  /** The first occurrence of `p` in `s`. */
  function IndexOf(s: string, p: string): (r: Option<nat>)
    ensures r.Some? ==> OccursAt(s, p, r.value)
    ensures r.Some? ==> forall j :: 0 <= j < r.value ==> !OccursAt(s, p, j)
    ensures r.None? ==> forall j :: !OccursAt(s, p, j)
  {
    IndexFrom(s, p, 0)
  }

  /** Python's `p in s`. */
  predicate Contains(s: string, p: string) {
    IndexOf(s, p).Some?
  }

  lemma ContainsIff(s: string, p: string)
    ensures Contains(s, p) <==> exists i :: OccursAt(s, p, i)
  {
  }

  /** Any occurrence makes `p in s` true. */
  lemma OccursContains(s: string, p: string, i: int)
    requires OccursAt(s, p, i)
    ensures Contains(s, p)
  {
  }

  /** A string placed between two others occurs in the result. */
  lemma InfixContains(x: string, p: string, y: string)
    ensures Contains(x + p + y, p)
  {
    assert (x + p + y)[|x|..|x| + |p|] == p;
    OccursContains(x + p + y, p, |x|);
  }

  /** The three values filled into a template `head a mid b tail c` all occur
      in the result. */
  lemma FilledContains(head: string, a: string, mid: string, b: string, tail: string, c: string)
    ensures var m := head + a + mid + b + tail + c;
            Contains(m, a) && Contains(m, b) && Contains(m, c)
  {
    var m := head + a + mid + b + tail + c;
    InfixContains(head, a, mid + b + tail + c);
    assert m == head + a + (mid + b + tail + c);
    InfixContains(head + a + mid, b, tail + c);
    assert m == head + a + mid + b + (tail + c);
    InfixContains(head + a + mid + b + tail, c, []);
    assert m == head + a + mid + b + tail + c + [];
  }

  /** The two values filled into a template `head a mid b` both occur in the
      result. */
  lemma FilledContains2(head: string, a: string, mid: string, b: string)
    ensures Contains(head + a + mid + b, a) && Contains(head + a + mid + b, b)
  {
    InfixContains(head, a, mid + b);
    assert head + a + mid + b == head + a + (mid + b);
    InfixContains(head + a + mid, b, []);
    assert head + a + mid + b == head + a + mid + b + [];
  }

  /** An occurrence inside a slice is an occurrence in the whole string. */
  lemma OccursInSlice(s: string, p: string, lo: int, hi: int, j: int)
    requires 0 <= lo <= hi <= |s|
    requires OccursAt(s[lo..hi], p, j)
    ensures OccursAt(s, p, lo + j)
  {
    var t := s[lo..hi];
    var q := s[lo + j..lo + j + |p|];
    forall k | 0 <= k < |p|
      ensures q[k] == p[k]
    {
      assert q[k] == t[j + k] == t[j..j + |p|][k];
    }
  }

  /** `sep.join(parts)`. */
  function Join(parts: seq<string>, sep: string): string
    decreases |parts|
  {
    if |parts| == 0 then ""
    else if |parts| == 1 then parts[0]
    else parts[0] + sep + Join(parts[1..], sep)
  }

  /** `s.split(sep)` for a non-empty separator (Python raises ValueError on an
      empty one): the pieces between non-overlapping occurrences found left to
      right. Gluing the pieces back gives `s`; SplitPiecesFree and
      SplitSingle say that no piece holds the separator and that there is more
      than one piece exactly when the separator occurs. */
  function Split(s: string, sep: string): (r: seq<string>)
    requires |sep| > 0
    ensures |r| >= 1
    ensures Join(r, sep) == s
    decreases |s|
  {
    match IndexOf(s, sep)
    case None => [s]
    case Some(i) =>
      var tail := Split(s[i + |sep|..], sep);
      FirstOccurrenceCut(s, sep, i);
      JoinCons(s[..i], tail, sep);
      [s[..i]] + tail
  }

  /** No piece of a split holds the separator. */
  lemma {:induction false} SplitPiecesFree(s: string, sep: string)
    requires |sep| > 0
    ensures forall k :: 0 <= k < |Split(s, sep)| ==> !Contains(Split(s, sep)[k], sep)
    decreases |s|
  {
    match IndexOf(s, sep)
    case None =>
    case Some(i) =>
      FirstOccurrenceCut(s, sep, i);
      SplitPiecesFree(s[i + |sep|..], sep);
  }

  /** A split has a single piece exactly when the separator does not occur. */
  lemma SplitSingle(s: string, sep: string)
    requires |sep| > 0
    ensures |Split(s, sep)| == 1 <==> !Contains(s, sep)
  {
  }

  /** Cutting `s` at the first occurrence of `p`: the part before it does not
      contain `p`, and the part before, `p` and the part after make up `s`. */
  lemma FirstOccurrenceCut(s: string, p: string, i: nat)
    requires |p| > 0 && IndexOf(s, p) == Some(i)
    ensures !Contains(s[..i], p)
    ensures s == s[..i] + p + s[i + |p|..]
  {
    if Contains(s[..i], p) {
      var j := IndexOf(s[..i], p).value;
      OccursInSlice(s, p, 0, i, j);
    }
    assert s[i..i + |p|] == p;
  }

  /** Joining a part in front of a non-empty list puts the separator after it. */
  lemma JoinCons(head: string, tail: seq<string>, sep: string)
    requires |tail| >= 1
    ensures Join([head] + tail, sep) == head + sep + Join(tail, sep)
  {
    assert ([head] + tail)[1..] == tail;
  }

  /** The first piece of a split is a prefix of the string; when there are
      more pieces the separator follows it immediately. */
  lemma SplitHead(s: string, sep: string)
    requires |sep| > 0
    ensures var r := Split(s, sep);
            && |r[0]| <= |s| && r[0] == s[..|r[0]|]
            && (|r| > 1 ==> |r[0]| + |sep| <= |s| && s[|r[0]|..|r[0]| + |sep|] == sep)
            && (|r| == 1 ==> r[0] == s)
  {
    var r := Split(s, sep);
    if |r| > 1 {
      assert s == r[0] + sep + Join(r[1..], sep);
      assert s[..|r[0]|] == r[0];
      assert s[|r[0]|..|r[0]| + |sep|] == sep;
    }
  }

  /** When the separator occurs, the second piece is the first piece of what
      follows its first occurrence. */
  lemma SplitSecond(s: string, sep: string)
    requires |sep| > 0 && Contains(s, sep)
    ensures |Split(s, sep)| >= 2
    ensures Split(s, sep)[1] == Split(s[IndexOf(s, sep).value + |sep|..], sep)[0]
  {
  }

  /** Splitting on a single character undoes joining on it, provided no part
      contains that character. (For longer separators this can fail: parts may
      overlap a separator at their edges.) */
  lemma {:induction false} SplitJoin(parts: seq<string>, c: char)
    requires |parts| >= 1
    requires forall k :: 0 <= k < |parts| ==> c !in parts[k]
    ensures Split(Join(parts, [c]), [c]) == parts
    decreases |parts|
  {
    var s := Join(parts, [c]);
    if |parts| == 1 {
      assert s == parts[0];
    } else {
      var rest := Join(parts[1..], [c]);
      var n := |parts[0]|;
      assert s == parts[0] + [c] + rest;
      assert OccursAt(s, [c], n);
      forall j | 0 <= j < n
        ensures !OccursAt(s, [c], j)
      {
        assert s[j] == parts[0][j];
      }
      assert IndexOf(s, [c]) == Some(n);
      assert s[..n] == parts[0];
      assert s[n + 1..] == rest;
      SplitJoin(parts[1..], c);
      assert Split(s, [c]) == [parts[0]] + Split(rest, [c]);
    }
  }

  /** Joining two non-empty lists is joining the two joins with one more
      separator between them. */
  lemma {:induction false} JoinAppend(p: seq<string>, q: seq<string>, sep: string)
    requires |p| >= 1 && |q| >= 1
    ensures Join(p + q, sep) == Join(p, sep) + sep + Join(q, sep)
    decreases |p|
  {
    assert p + q == [p[0]] + (p[1..] + q);
    JoinCons(p[0], p[1..] + q, sep);
    if |p| > 1 {
      JoinAppend(p[1..], q, sep);
      assert p == [p[0]] + p[1..];
      JoinCons(p[0], p[1..], sep);
    }
  }

  /** Text without the separator character is a single piece. */
  lemma SplitNoSep(s: string, c: char)
    requires c !in s
    ensures Split(s, [c]) == [s]
  {
    ContainsChar(s, c);
    SplitSingle(s, [c]);
  }

  /** No piece of a split on a character holds that character. */
  lemma SplitPiecesAvoid(s: string, c: char)
    ensures forall k :: 0 <= k < |Split(s, [c])| ==> c !in Split(s, [c])[k]
  {
    SplitPiecesFree(s, [c]);
    forall k | 0 <= k < |Split(s, [c])|
      ensures c !in Split(s, [c])[k]
    {
      ContainsChar(Split(s, [c])[k], c);
    }
  }

  /** Splitting on one character at an occurrence of it splits what comes
      before and what comes after separately. */
  lemma SplitAppend(x: string, c: char, y: string)
    ensures Split(x + [c] + y, [c]) == Split(x, [c]) + Split(y, [c])
  {
    var p, q := Split(x, [c]), Split(y, [c]);
    JoinAppend(p, q, [c]);
    assert Join(p + q, [c]) == x + [c] + y;
    SplitPiecesAvoid(x, c);
    SplitPiecesAvoid(y, c);
    var pq := p + q;
    forall k | 0 <= k < |pq|
      ensures c !in pq[k]
    {
      if k < |p| {
        assert pq[k] == p[k];
      } else {
        assert pq[k] == q[k - |p|];
      }
    }
    SplitJoin(pq, c);
  }

  /** Python's `str.isspace()` for one character: the code points with
      Unicode bidirectional class WS, B or S, or general category Zs. */
  predicate IsSpace(c: char) {
    || ('\t' <= c <= '\r')
    || ('\U{001C}' <= c <= '\U{001F}')
    || c == ' '
    || c == '\U{0085}'
    || c == '\U{00A0}'
    || c == '\U{1680}'
    || ('\U{2000}' <= c <= '\U{200A}')
    || c == '\U{2028}'
    || c == '\U{2029}'
    || c == '\U{202F}'
    || c == '\U{205F}'
    || c == '\U{3000}'
  }

  predicate AllSpace(s: string) {
    forall k :: 0 <= k < |s| ==> IsSpace(s[k])
  }

  /** Neither end of `s` is whitespace. */
  predicate Trimmed(s: string) {
    |s| > 0 ==> !IsSpace(s[0]) && !IsSpace(s[|s| - 1])
  }

  /** The end of the whitespace run of `s` that starts at `i`. */
  function SpaceRunEnd(s: string, i: nat): (r: nat)
    requires i <= |s|
    ensures i <= r <= |s|
    ensures forall k :: i <= k < r ==> IsSpace(s[k])
    ensures r < |s| ==> !IsSpace(s[r])
    decreases |s| - i
  {
    if i < |s| && IsSpace(s[i]) then SpaceRunEnd(s, i + 1) else i
  }

  /** The start of the whitespace run of `s` that ends at `j`, not going
      below `lo`. */
  function SpaceRunStart(s: string, lo: nat, j: nat): (r: nat)
    requires lo <= j <= |s|
    ensures lo <= r <= j
    ensures forall k :: r <= k < j ==> IsSpace(s[k])
    ensures r > lo ==> !IsSpace(s[r - 1])
    decreases j
  {
    if j > lo && IsSpace(s[j - 1]) then SpaceRunStart(s, lo, j - 1) else j
  }

  /** `s.strip()`: drop the whitespace at both ends. Only whitespace goes,
      none is left at either end (StripIsSlice says where the result sits in
      `s`), and the result is empty exactly for an all-whitespace string. */
  function Strip(s: string): (r: string)
    ensures |r| <= |s|
    ensures Trimmed(r)
    ensures r == [] <==> AllSpace(s)
  {
    var i := SpaceRunEnd(s, 0);
    var j := SpaceRunStart(s, i, |s|);
    s[i..j]
  }

  /** Strip's result is the slice of `s` between its leading and its
      trailing whitespace. */
  lemma StripIsSlice(s: string) returns (i: nat, j: nat)
    ensures i <= j <= |s| && Strip(s) == s[i..j]
    ensures forall k :: 0 <= k < i ==> IsSpace(s[k])
    ensures forall k :: j <= k < |s| ==> IsSpace(s[k])
  {
    i := SpaceRunEnd(s, 0);
    j := SpaceRunStart(s, i, |s|);
  }

  /** Stripping a string that has no whitespace at either end changes nothing. */
  lemma StripTrimmed(s: string)
    requires Trimmed(s)
    ensures Strip(s) == s
  {
    var i, j := StripIsSlice(s);
  }

  /** `str.strip()` is idempotent. */
  lemma StripIdempotent(s: string)
    ensures Strip(Strip(s)) == Strip(s)
  {
    StripTrimmed(Strip(s));
  }

  /** `s.replace(a, b)` for single characters. */
  function ReplaceChar(s: string, a: char, b: char): (r: string)
    ensures |r| == |s|
    ensures a != b ==> a !in r
    decreases |s|
  {
    if |s| == 0 then []
    else
      var rest := ReplaceChar(s[1..], a, b);
      [if s[0] == a then b else s[0]] + rest
  }

  /** Replacing a character that does not occur changes nothing. */
  lemma ReplaceAbsent(s: string, a: char, b: char)
    requires a !in s
    ensures ReplaceChar(s, a, b) == s
  {
    ReplaceCharAt(s, a, b);
  }

  /** Each character of the result is the input's character at the same
      place, `a` replaced by `b`. */
  lemma {:induction false} ReplaceCharAt(s: string, a: char, b: char)
    ensures forall k :: 0 <= k < |s| ==>
              ReplaceChar(s, a, b)[k] == if s[k] == a then b else s[k]
    decreases |s|
  {
    if |s| > 0 {
      ReplaceCharAt(s[1..], a, b);
      var r := ReplaceChar(s, a, b);
      forall k | 1 <= k < |s|
        ensures r[k] == if s[k] == a then b else s[k]
      {
        assert s[k] == s[1..][k - 1];
      }
    }
  }

  /** A one-character pattern occurs exactly when the character does. */
  lemma ContainsChar(s: string, c: char)
    ensures Contains(s, [c]) <==> c in s
  {
    if c in s {
      var i :| 0 <= i < |s| && s[i] == c;
      assert s[i..i + 1] == [c];
      assert OccursAt(s, [c], i);
    } else {
      forall i | 0 <= i < |s|
        ensures !OccursAt(s, [c], i)
      {
        assert s[i..i + 1][0] == s[i];
      }
    }
  }

  /** Every character of a part is a character of the joined string. */
  lemma {:induction false} JoinKeepsPartChars(parts: seq<string>, sep: string, k: nat, c: char)
    requires k < |parts| && c in parts[k]
    ensures c in Join(parts, sep)
    decreases |parts|
  {
    if |parts| > 1 {
      assert Join(parts, sep) == parts[0] + sep + Join(parts[1..], sep);
      if k > 0 {
        JoinKeepsPartChars(parts[1..], sep, k - 1, c);
      }
    }
  }

  /** A character in neither the parts nor the separator is not in the join. */
  lemma {:induction false} JoinAvoidsChar(parts: seq<string>, sep: string, c: char)
    requires c !in sep
    requires forall k :: 0 <= k < |parts| ==> c !in parts[k]
    ensures c !in Join(parts, sep)
    decreases |parts|
  {
    if |parts| > 1 {
      JoinAvoidsChar(parts[1..], sep, c);
    }
  }

  /** A joined string of non-empty parts begins with the first part's first
      character and ends with the last part's last character. */
  lemma {:induction false} JoinEnds(parts: seq<string>, sep: string)
    requires |parts| >= 1
    requires forall k :: 0 <= k < |parts| ==> parts[k] != []
    ensures var s := Join(parts, sep);
            && |s| > 0
            && s[0] == parts[0][0]
            && s[|s| - 1] == parts[|parts| - 1][|parts[|parts| - 1]| - 1]
    decreases |parts|
  {
    if |parts| > 1 {
      JoinEnds(parts[1..], sep);
      var rest := Join(parts[1..], sep);
      assert Join(parts, sep) == (parts[0] + sep) + rest;
    }
  }

  /** Replacing the separator character of a join by another character joins
      on that other character instead, when no part holds the first one. */
  lemma {:induction false} ReplaceJoin(parts: seq<string>, a: char, b: char)
    requires forall k :: 0 <= k < |parts| ==> a !in parts[k]
    ensures ReplaceChar(Join(parts, [a]), a, b) == Join(parts, [b])
    decreases |parts|
  {
    if |parts| == 1 {
      ReplaceAbsent(parts[0], a, b);
    } else if |parts| > 1 {
      var rest := Join(parts[1..], [a]);
      assert Join(parts, [a]) == (parts[0] + [a]) + rest;
      assert Join(parts, [b]) == (parts[0] + [b]) + Join(parts[1..], [b]);
      ReplaceJoin(parts[1..], a, b);
      ReplaceAppend(parts[0] + [a], rest, a, b);
      ReplaceAppend(parts[0], [a], a, b);
      ReplaceAbsent(parts[0], a, b);
      assert ReplaceChar([a], a, b) == [b] by {
        assert [a][1..] == [];
      }
    }
  }

  /** Replacing works piece by piece. */
  lemma {:induction false} ReplaceAppend(x: string, y: string, a: char, b: char)
    ensures ReplaceChar(x + y, a, b) == ReplaceChar(x, a, b) + ReplaceChar(y, a, b)
    decreases |x|
  {
    if |x| == 0 {
      assert x + y == y;
    } else {
      ReplaceAppend(x[1..], y, a, b);
      assert (x + y)[1..] == x[1..] + y;
    }
  }

  /** Stripping never introduces a character. */
  lemma StripAvoidsChar(s: string, c: char)
    requires c !in s
    ensures c !in Strip(s)
  {
    var r := Strip(s);
    var i, j := StripIsSlice(s);
    forall m | 0 <= m < |r|
      ensures r[m] != c
    {
      assert r[m] == s[i + m];
    }
  }
}
