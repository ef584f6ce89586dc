/** The Python `str` operations the tracker relies on, over strings of Unicode
    code points. */
module PyStr {

  /** `str.isspace()` on one code point: the characters `str.strip()` removes. */
  predicate IsSpace(c: char) {
    || ('\t' <= c <= '\r')
    || ('\U{1c}' <= c <= ' ')
    || c == '\U{85}' || c == '\U{a0}' || c == '\U{1680}'
    || ('\U{2000}' <= c <= '\U{200a}')
    || c == '\U{2028}' || c == '\U{2029}' || c == '\U{202f}' || c == '\U{205f}' || c == '\U{3000}'
  }

  predicate IsDigit(c: char) { '0' <= c <= '9' }

  predicate AllDigits(s: string) { forall i :: 0 <= i < |s| ==> IsDigit(s[i]) }

  predicate AllSpace(s: string) { forall i :: 0 <= i < |s| ==> IsSpace(s[i]) }

  /** Neither starts nor ends with whitespace: what `str.strip()` leaves. */
  predicate IsStripped(s: string) { s == [] || (!IsSpace(s[0]) && !IsSpace(s[|s| - 1])) }

  /** The length of the longest prefix of `s` whose characters all satisfy `p`. */
  function LeadingRun(s: string, p: char -> bool): (n: nat)
    ensures n <= |s|
    ensures forall i :: 0 <= i < n ==> p(s[i])
    ensures n < |s| ==> !p(s[n])
  {
    if s == [] || !p(s[0]) then 0 else 1 + LeadingRun(s[1..], p)
  }

  /** The length of the longest suffix of `s` whose characters all satisfy `p`. */
  function TrailingRun(s: string, p: char -> bool): (n: nat)
    ensures n <= |s|
    ensures forall i :: |s| - n <= i < |s| ==> p(s[i])
    ensures n < |s| ==> !p(s[|s| - 1 - n])
  {
    if s == [] || !p(s[|s| - 1]) then 0 else 1 + TrailingRun(s[..|s| - 1], p)
  }

  /** Drops the leading characters that satisfy `p`. */
  function TrimStart(s: string, p: char -> bool): string {
    s[LeadingRun(s, p)..]
  }

  /** Drops the trailing characters that satisfy `p`; `s.rstrip(',')` is
      `TrimEnd(s, c => c == ',')`. */
  function TrimEnd(s: string, p: char -> bool): (r: string)
    ensures |r| <= |s| && r == s[..|r|]
    ensures r == [] || !p(r[|r| - 1])
    ensures forall k :: |r| <= k < |s| ==> p(s[k])
  {
    s[..|s| - TrailingRun(s, p)]
  }

  /** Drops the characters satisfying `p` on both sides. */
  function Trim(s: string, p: char -> bool): (r: string)
    ensures r == [] || (!p(r[0]) && !p(r[|r| - 1]))
    ensures exists i, j :: 0 <= i <= j <= |s| && r == s[i..j]
                        && (forall k :: 0 <= k < i ==> p(s[k])) && (forall k :: j <= k < |s| ==> p(s[k]))
    ensures LeadingRun(s, p) < |s| ==> r == s[LeadingRun(s, p)..|s| - TrailingRun(s, p)]
  {
    var i := LeadingRun(s, p);
    if i == |s| then
      assert s[i..i] == [];
      []
    else
      var j := |s| - TrailingRun(s, p);
      assert !p(s[i]);
      s[i..j]
  }

  /** A string whose two ends `p` rejects is its own trim. */
  lemma TrimUntouched(s: string, p: char -> bool)
    requires s != [] && !p(s[0]) && !p(s[|s| - 1])
    ensures Trim(s, p) == s
  {
    assert LeadingRun(s, p) == 0;
    assert TrailingRun(s, p) == 0;
    assert s[0..|s|] == s;
  }

  /** Appending after a character `p` rejects does not change what a trailing
      trim of the front part keeps. */
  lemma {:induction false} TrailingRunAppend(a: string, b: string, p: char -> bool)
    requires a == [] || !p(a[|a| - 1])
    ensures TrailingRun(a + b, p) == TrailingRun(b, p)
    decreases |b|
  {
    if b == [] {
      assert a + b == a;
    } else if p(b[|b| - 1]) {
      assert (a + b)[..|a + b| - 1] == a + b[..|b| - 1];
      TrailingRunAppend(a, b[..|b| - 1], p);
    }
  }

  lemma TrimEndAppend(a: string, b: string, p: char -> bool)
    requires a == [] || !p(a[|a| - 1])
    ensures TrimEnd(a + b, p) == a + TrimEnd(b, p)
  {
    TrailingRunAppend(a, b, p);
    assert (a + b)[..|a + b| - TrailingRun(b, p)] == a + b[..|b| - TrailingRun(b, p)];
  }

  /** A character `p` rejects survives trimming. */
  lemma TrimKeeps(s: string, p: char -> bool, c: char)
    requires c in s && !p(c)
    ensures c in Trim(s, p)
  {
    var k :| 0 <= k < |s| && s[k] == c;
    var i, j := LeadingRun(s, p), |s| - TrailingRun(s, p);
    assert i <= k < j;
    SliceHas(s, i, j, k);
  }

  /** `str.strip()`: the middle of `s` once the whitespace on both sides is cut off. */
  function Strip(s: string): (r: string)
    ensures IsStripped(r)
    ensures exists i, j :: 0 <= i <= j <= |s| && r == s[i..j]
                        && (forall k :: 0 <= k < i ==> IsSpace(s[k])) && (forall k :: j <= k < |s| ==> IsSpace(s[k]))
  {
    Trim(s, IsSpace)
  }

  lemma StripKeepsStripped(s: string)
    requires IsStripped(s)
    ensures Strip(s) == s
  {
    assert TrimStart(s, IsSpace) == s;
  }

  lemma StripDropsLeadingSpace(c: char, s: string)
    requires IsSpace(c) && IsStripped(s)
    ensures Strip([c] + s) == s
  {
    assert ([c] + s)[1..] == s;
    assert TrimStart([c] + s, IsSpace) == TrimStart(s, IsSpace) == s;
  }

  lemma StripOfBlank(s: string)
    requires AllSpace(s)
    ensures Strip(s) == []
  {
  }

  lemma SliceMember(s: string, i: int, j: int, c: char)
    requires 0 <= i <= j <= |s| && c in s[i..j]
    ensures c in s
  {
    var k :| 0 <= k < j - i && s[i..j][k] == c;
    assert s[i + k] == c;
  }

  lemma SliceHas(s: string, i: int, j: int, k: int)
    requires 0 <= i <= k < j <= |s|
    ensures s[k] in s[i..j]
  {
    assert s[i..j][k - i] == s[k];
  }

  /** Trimming only removes characters. */
  lemma TrimSubset(s: string, p: char -> bool, c: char)
    requires c in Trim(s, p)
    ensures c in s
  {
    var i := LeadingRun(s, p);
    if i < |s| {
      var j := |s| - TrailingRun(s, p);
      SliceMember(s, i, j, c);
    }
  }

  /** `str.replace(target, replacement)` for single characters. */
  function ReplaceChar(s: string, target: char, replacement: char): (r: string)
    ensures |r| == |s|
    ensures forall i :: 0 <= i < |s| ==> r[i] == (if s[i] == target then replacement else s[i])
  {
    if s == [] then [] else [if s[0] == target then replacement else s[0]] + ReplaceChar(s[1..], target, replacement)
  }

  lemma ReplaceCharConcat(a: string, b: string, target: char, replacement: char)
    ensures ReplaceChar(a + b, target, replacement) == ReplaceChar(a, target, replacement) + ReplaceChar(b, target, replacement)
  {
    var l, r := ReplaceChar(a + b, target, replacement), ReplaceChar(a, target, replacement) + ReplaceChar(b, target, replacement);
    assert |l| == |r|;
    forall i | 0 <= i < |l| ensures l[i] == r[i] {
      if i < |a| { assert (a + b)[i] == a[i]; } else { assert (a + b)[i] == b[i - |a|]; }
    }
  }

  lemma ReplaceCharAbsent(s: string, target: char, replacement: char)
    requires target !in s
    ensures ReplaceChar(s, target, replacement) == s
  {
    var r := ReplaceChar(s, target, replacement);
    assert forall i :: 0 <= i < |s| ==> r[i] == s[i];
  }

  /** How many times `c` occurs in `s`. */
  function Count(s: string, c: char): nat {
    if s == [] then 0 else (if s[0] == c then 1 else 0) + Count(s[1..], c)
  }

  /** Deletes every occurrence of `c`. */
  function RemoveChar(s: string, c: char): (r: string)
    ensures c !in r
    ensures |r| == |s| - Count(s, c)
    ensures forall x :: x in r ==> x in s
  {
    if s == [] then [] else if s[0] == c then RemoveChar(s[1..], c) else [s[0]] + RemoveChar(s[1..], c)
  }

  lemma {:induction false} RemoveCharConcat(a: string, b: string, c: char)
    ensures RemoveChar(a + b, c) == RemoveChar(a, c) + RemoveChar(b, c)
  {
    if a != [] {
      assert (a + b)[1..] == a[1..] + b;
      RemoveCharConcat(a[1..], b, c);
    } else {
      assert a + b == b;
    }
  }

  lemma {:induction false} RemoveCharAbsent(s: string, c: char)
    requires c !in s
    ensures RemoveChar(s, c) == s
  {
    if s != [] {
      RemoveCharAbsent(s[1..], c);
    }
  }

  /** `sep.join(parts)`. */
  function Join(parts: seq<string>, sep: string): string {
    if |parts| == 0 then []
    else if |parts| == 1 then parts[0]
    else parts[0] + sep + Join(parts[1..], sep)
  }

  lemma {:induction false} JoinFirstChar(parts: seq<string>, sep: string)
    requires |parts| > 0 && parts[0] != []
    ensures Join(parts, sep) != [] && Join(parts, sep)[0] == parts[0][0]
  {
  }

  lemma {:induction false} JoinLastChar(parts: seq<string>, sep: string)
    requires |parts| > 0 && parts[|parts| - 1] != []
    ensures Join(parts, sep) != []
    ensures Join(parts, sep)[|Join(parts, sep)| - 1] == parts[|parts| - 1][|parts[|parts| - 1]| - 1]
  {
    if |parts| > 1 {
      JoinLastChar(parts[1..], sep);
      assert parts[1..][|parts| - 2] == parts[|parts| - 1];
    }
  }

  /** Replacing a character no part holds replaces exactly the separators. */
  lemma {:induction false} ReplaceInJoin(parts: seq<string>, x: char, y: char)
    requires forall k :: 0 <= k < |parts| ==> x !in parts[k]
    ensures ReplaceChar(Join(parts, [x]), x, y) == Join(parts, [y])
  {
    if |parts| == 1 {
      ReplaceCharAbsent(parts[0], x, y);
    } else if |parts| > 1 {
      var head, tail := parts[0], Join(parts[1..], [x]);
      assert Join(parts, [x]) == head + [x] + tail;
      ReplaceInJoin(parts[1..], x, y);
      ReplaceCharConcat(head + [x], tail, x, y);
      ReplaceCharConcat(head, [x], x, y);
      ReplaceCharAbsent(head, x, y);
      assert ReplaceChar([x], x, y) == [y];
      assert Join(parts, [y]) == head + [y] + Join(parts[1..], [y]);
    }
  }

  /** `''.join(parts)`. */
  function Concat(parts: seq<string>): string {
    if parts == [] then [] else parts[0] + Concat(parts[1..])
  }

  lemma ConcatPair(a: string, b: string)
    ensures Concat([a]) == a && Concat([a, b]) == a + b
  {
    assert [a][1..] == [] && [a, b][1..] == [b];
    assert Concat([b]) == b + Concat([]) == b;
    assert Concat([a]) == a + Concat([]) == a;
  }

  lemma JoinPair(a: string, b: string, sep: string)
    ensures Join([a], sep) == a && Join([a, b], sep) == a + sep + b
  {
    assert [a, b][1..] == [b];
  }

  /** `s.split(sep)` for a one-character separator: the pieces between the
      separators, empty ones included, so there is always one more piece than
      there are separators. */
  function Split(s: string, sep: char): (r: seq<string>)
    ensures |r| == Count(s, sep) + 1
    ensures forall k :: 0 <= k < |r| ==> sep !in r[k]
    ensures Join(r, [sep]) == s
  {
    if s == [] then [[]]
    else
      var rest := Split(s[1..], sep);
      assert s == [s[0]] + s[1..];
      if s[0] == sep then [[]] + rest
      else [[s[0]] + rest[0]] + rest[1..]
  }

  /** Splitting a string that starts with a separator-free piece. */
  lemma {:induction false} SplitAfterPiece(p: string, t: string, sep: char)
    requires sep !in p
    ensures Split(p + t, sep) == [p + Split(t, sep)[0]] + Split(t, sep)[1..]
  {
    if p != [] {
      assert (p + t)[1..] == p[1..] + t;
      SplitAfterPiece(p[1..], t, sep);
      assert [p[0]] + (p[1..] + Split(t, sep)[0]) == p + Split(t, sep)[0];
    } else {
      assert p + t == t;
      assert [] + Split(t, sep)[0] == Split(t, sep)[0];
    }
  }

  /** Splitting undoes joining when no piece holds the separator. */
  lemma {:induction false} SplitJoin(parts: seq<string>, sep: char)
    requires |parts| > 0
    requires forall k :: 0 <= k < |parts| ==> sep !in parts[k]
    ensures Split(Join(parts, [sep]), sep) == parts
  {
    if |parts| == 1 {
      SplitAfterPiece(parts[0], [], sep);
      assert parts[0] + [] == parts[0];
    } else {
      var rest := Join(parts[1..], [sep]);
      SplitJoin(parts[1..], sep);
      assert parts[0] + [sep] + rest == parts[0] + ([sep] + rest);
      SplitAfterPiece(parts[0], [sep] + rest, sep);
      assert ([sep] + rest)[1..] == rest;
      assert Split([sep] + rest, sep) == [[]] + parts[1..];
      assert parts[0] + [] == parts[0];
    }
  }

  lemma {:induction false} CountAbsent(s: string, c: char)
    requires c !in s
    ensures Count(s, c) == 0
  {
    if s != [] {
      CountAbsent(s[1..], c);
    }
  }

  /** `s.strip()` of every element, in order. */
  function StripEach(parts: seq<string>): seq<string> {
    seq(|parts|, k requires 0 <= k < |parts| => Strip(parts[k]))
  }

  /** `s.startswith(prefix)`. */
  predicate StartsWith(s: string, prefix: string) {
    |prefix| <= |s| && s[..|prefix|] == prefix
  }

  /** The index of the first character satisfying `p`, or `|s|` when there is none. */
  function IndexWhere(s: string, p: char -> bool): (r: nat)
    ensures r <= |s|
    ensures r < |s| ==> p(s[r])
    ensures forall i :: 0 <= i < r ==> !p(s[i])
  {
    if s == [] then 0 else if p(s[0]) then 0 else 1 + IndexWhere(s[1..], p)
  }

  /** ASCII lower-casing, as CPython applies it to `inf` and `nan`. */
  function LowerAscii(s: string): (r: string)
    ensures |r| == |s|
    ensures forall i :: 0 <= i < |s| ==> r[i] == (if 'A' <= s[i] <= 'Z' then (s[i] as int + 32) as char else s[i])
  {
    if s == [] then []
    else [if 'A' <= s[0] <= 'Z' then (s[0] as int + 32) as char else s[0]] + LowerAscii(s[1..])
  }
}
