/**
 * The handful of Python `str` operations the codecs rely on, with the exact
 * character classes Python uses: `splitlines`, `strip`, `sep.join`,
 * `split(sep, maxsplit=1)`, `startswith`, `in` and the `<` order on strings.
 */
module Text {
  import opened Wrappers

  /** The line boundaries of `str.splitlines`. */
  predicate IsLineBreak(c: char) {
    var n := c as int;
    n == 0x0A || n == 0x0B || n == 0x0C || n == 0x0D || n == 0x1C || n == 0x1D || n == 0x1E ||
    n == 0x85 || n == 0x2028 || n == 0x2029
  }

  /** The characters for which `str.isspace` holds, which `str.strip` removes. */
  predicate IsSpace(c: char) {
    var n := c as int;
    (0x09 <= n <= 0x0D) || (0x1C <= n <= 0x20) || n == 0x85 || n == 0xA0 || n == 0x1680 ||
    (0x2000 <= n <= 0x200A) || n == 0x2028 || n == 0x2029 || n == 0x202F || n == 0x205F || n == 0x3000
  }

  predicate NoLineBreak(s: string) {
    forall i :: 0 <= i < |s| ==> !IsLineBreak(s[i])
  }

  lemma NoBreakConcat(a: string, b: string)
    requires NoLineBreak(a) && NoLineBreak(b)
    ensures NoLineBreak(a + b)
  {
    assert forall i :: 0 <= i < |a + b| ==> (a + b)[i] == if i < |a| then a[i] else b[i - |a|];
  }

  /** Index of the first line boundary in `s`, or `|s|` when there is none. */
  function FirstBreak(s: string): (i: nat)
    ensures i <= |s|
    ensures i < |s| ==> IsLineBreak(s[i])
    ensures forall j :: 0 <= j < i ==> !IsLineBreak(s[j])
  {
    if s == [] then 0 else if IsLineBreak(s[0]) then 0 else 1 + FirstBreak(s[1..])
  }

  /** `s.splitlines()`: "\r\n" is one boundary, and a final boundary opens no empty line. */
  function SplitLines(s: string): seq<string>
    decreases |s|
  {
    if s == [] then []
    else
      var i := FirstBreak(s);
      if i == |s| then [s]
      else
        var width := if s[i] == '\r' && i + 1 < |s| && s[i + 1] == '\n' then 2 else 1;
        [s[..i]] + SplitLines(s[i + width..])
  }

  /** `sep.join(parts)`. */
  function Join(parts: seq<string>, sep: string): string
  {
    if |parts| == 0 then "" else if |parts| == 1 then parts[0] else parts[0] + sep + Join(parts[1..], sep)
  }

  function StripLeft(s: string): string
  {
    if s != [] && IsSpace(s[0]) then StripLeft(s[1..]) else s
  }

  function StripRight(s: string): string
  {
    if s != [] && IsSpace(s[|s| - 1]) then StripRight(s[..|s| - 1]) else s
  }

  /** `s.strip()`. */
  function Strip(s: string): string
  {
    StripRight(StripLeft(s))
  }

  predicate StartsWith(s: string, prefix: string) {
    |prefix| <= |s| && s[..|prefix|] == prefix
  }

  /** `sub` occurs in `s` at index `j`. */
  predicate OccursAt(s: string, sub: string, j: int) {
    0 <= j && j + |sub| <= |s| && s[j..j + |sub|] == sub
  }

  /** `sub in s`. */
  predicate Contains(s: string, sub: string) {
    exists j :: 0 <= j <= |s| && OccursAt(s, sub, j)
  }

  /** No occurrence of `sep` starts before index `k` of `s`. */
  predicate NoMatchBefore(s: string, sep: string, k: nat) {
    forall j :: 0 <= j < k ==> !OccursAt(s, sep, j)
  }

  /** Index of the first occurrence of `sep` in `s` at or after `k`, none occurring before `k`. */
  function FindFrom(s: string, sep: string, k: nat): (r: Option<nat>)
    requires sep != [] && NoMatchBefore(s, sep, k)
    ensures r.Some? ==> OccursAt(s, sep, r.value) && NoMatchBefore(s, sep, r.value)
    ensures r.None? ==> NoMatchBefore(s, sep, |s| + 1)
    decreases |s| - k
  {
    if k + |sep| > |s| then None
    else if s[k..k + |sep|] == sep then Some(k)
    else FindFrom(s, sep, k + 1)
  }

  /** Index of the first occurrence of `sep` in `s`. */
  function Find(s: string, sep: string): (r: Option<nat>)
    requires sep != []
    ensures r.Some? ==> OccursAt(s, sep, r.value) && NoMatchBefore(s, sep, r.value)
    ensures r.None? <==> !Contains(s, sep)
  {
    FindFrom(s, sep, 0)
  }

  /** `s.split(sep, maxsplit=1)` unpacked into two parts; None where Python raises ValueError. */
  function SplitOnce(s: string, sep: string): (r: Option<(string, string)>)
    requires sep != []
    ensures r.None? <==> !Contains(s, sep)
    ensures r.Some? ==> s == r.value.0 + sep + r.value.1 && !Contains(r.value.0, sep)
  {
    match Find(s, sep)
    case None => None
    case Some(i) =>
      assert s == s[..i] + sep + s[i + |sep|..];
      PrefixFree(s, sep, i);
      Some((s[..i], s[i + |sep|..]))
  }

  lemma PrefixFree(s: string, sep: string, i: nat)
    requires sep != [] && i <= |s| && NoMatchBefore(s, sep, i)
    ensures !Contains(s[..i], sep)
  {
    forall j | 0 <= j <= i ensures !OccursAt(s[..i], sep, j) {
      if j + |sep| <= i {
        assert s[..i][j..j + |sep|] == s[j..j + |sep|];
        assert !OccursAt(s, sep, j);
      }
    }
  }

  /** Python's `a < b` on strings: lexicographic by code point. */
  predicate Less(a: string, b: string)
  {
    if b == [] then false
    else if a == [] then true
    else if a[0] != b[0] then a[0] < b[0]
    else Less(a[1..], b[1..])
  }

  lemma {:induction false} LessIrreflexive(a: string)
    ensures !Less(a, a)
  {
    if a != [] { LessIrreflexive(a[1..]); }
  }

  lemma {:induction false} LessTransitive(a: string, b: string, c: string)
    requires Less(a, b) && Less(b, c)
    ensures Less(a, c)
  {
    if a != [] && a[0] == b[0] && b[0] == c[0] {
      LessTransitive(a[1..], b[1..], c[1..]);
    }
  }

  lemma {:induction false} LessTotal(a: string, b: string)
    requires a != b
    ensures Less(a, b) || Less(b, a)
  {
    if a != [] && b != [] && a[0] == b[0] {
      assert a == [a[0]] + a[1..] && b == [b[0]] + b[1..];
      LessTotal(a[1..], b[1..]);
    }
  }

  lemma {:induction false} LessAsymmetric(a: string, b: string)
    ensures Less(a, b) ==> !Less(b, a)
  {
    if a != [] && b != [] && a[0] == b[0] {
      LessAsymmetric(a[1..], b[1..]);
    }
  }

  // ---- splitlines / join ----

  lemma {:induction false} FirstBreakAfterPlain(line: string, t: string)
    requires NoLineBreak(line)
    ensures FirstBreak(line + t) == |line| + FirstBreak(t)
  {
    if line != [] {
      assert (line + t)[0] == line[0] && !IsLineBreak(line[0]);
      assert (line + t)[1..] == line[1..] + t;
      FirstBreakAfterPlain(line[1..], t);
    } else {
      assert line + t == t;
    }
  }

  /** A break-free line followed by "\n" splits off exactly that line. */
  lemma SplitLinesCons(line: string, rest: string)
    requires NoLineBreak(line)
    ensures SplitLines(line + "\n" + rest) == [line] + SplitLines(rest)
  {
    var s := line + "\n" + rest;
    assert s == line + ("\n" + rest);
    FirstBreakAfterPlain(line, "\n" + rest);
    assert FirstBreak(s) == |line|;
    assert s[|line|] == '\n';
    assert s[..|line|] == line;
    assert s[|line| + 1..] == rest;
  }

  /** A non-empty break-free text is one line. */
  lemma SplitLinesSingle(line: string)
    requires line != [] && NoLineBreak(line)
    ensures SplitLines(line) == [line]
  {
    FirstBreakAfterPlain(line, "");
    assert line + "" == line;
  }

  /** `"\n".join(lines) + "\n"` splits back into `lines` (the sakdb layout). */
  lemma {:induction false} SplitJoinTerminated(lines: seq<string>)
    requires |lines| > 0
    requires forall i :: 0 <= i < |lines| ==> NoLineBreak(lines[i])
    ensures SplitLines(Join(lines, "\n") + "\n") == lines
  {
    if |lines| == 1 {
      SplitLinesCons(lines[0], "");
      assert lines[0] + "\n" + "" == Join(lines, "\n") + "\n";
    } else {
      var tail := lines[1..];
      assert Join(lines, "\n") + "\n" == lines[0] + "\n" + (Join(tail, "\n") + "\n");
      SplitLinesCons(lines[0], Join(tail, "\n") + "\n");
      SplitJoinTerminated(tail);
      assert lines == [lines[0]] + tail;
    }
  }

  /** `"\n".join(lines)` splits back into `lines` when the last line is not empty (the legacy layout). */
  lemma {:induction false} SplitJoin(lines: seq<string>)
    requires |lines| > 0 && lines[|lines| - 1] != []
    requires forall i :: 0 <= i < |lines| ==> NoLineBreak(lines[i])
    ensures SplitLines(Join(lines, "\n")) == lines
  {
    if |lines| == 1 {
      SplitLinesSingle(lines[0]);
    } else {
      var tail := lines[1..];
      SplitLinesCons(lines[0], Join(tail, "\n"));
      SplitJoin(tail);
      assert lines == [lines[0]] + tail;
    }
  }

  /** `"\n".join([]) + "\n"` is one blank line. */
  lemma SplitEmptyTerminated()
    ensures SplitLines(Join([], "\n") + "\n") == [""]
  {
    SplitLinesCons("", "");
  }

  lemma StripUnchanged(s: string)
    requires s != [] && !IsSpace(s[0]) && !IsSpace(s[|s| - 1])
    ensures Strip(s) == s
  {
  }

  /** Stripping removes whitespace put around a text that neither starts nor ends with whitespace. */
  lemma StripAround(s: string, before: char, after: char)
    requires s != [] && !IsSpace(s[0]) && !IsSpace(s[|s| - 1])
    requires IsSpace(before) && IsSpace(after)
    ensures Strip([before] + s + [after]) == s
  {
    var t := [before] + s + [after];
    assert t[1..] == s + [after];
    assert StripLeft(t) == s + [after];
    assert (s + [after])[..|s|] == s;
    assert StripRight(s + [after]) == StripRight(s);
    assert StripRight(s) == s;
  }

  lemma StripEmpty()
    ensures Strip("") == ""
  {
  }

  /** Splitting at a one-character separator that `head` does not contain gives back `head` and `tail`. */
  lemma SplitOnceChar(head: string, sep: char, tail: string)
    requires sep !in head
    ensures SplitOnce(head + [sep] + tail, [sep]) == Some((head, tail))
  {
    var s := head + [sep] + tail;
    forall j | 0 <= j < |head|
      ensures !OccursAt(s, [sep], j)
    {
      assert s[j..j + 1] == [head[j]];
      assert head[j] != sep;
    }
    SplitOnceAt(head, [sep], tail);
  }

  /** Locating the separator that follows a prefix free of it. */
  lemma FindAt(s: string, sep: string, k: nat)
    requires sep != [] && OccursAt(s, sep, k)
    requires NoMatchBefore(s, sep, k)
    ensures Find(s, sep) == Some(k)
  {
  }

  /** Splitting `head + sep + tail` at the first `sep` gives back `head` when no occurrence begins inside `head`. */
  lemma SplitOnceAt(head: string, sep: string, tail: string)
    requires sep != []
    requires NoMatchBefore(head + sep + tail, sep, |head|)
    ensures SplitOnce(head + sep + tail, sep) == Some((head, tail))
  {
    var s := head + sep + tail;
    assert s[|head|..|head| + |sep|] == sep;
    assert OccursAt(s, sep, |head|);
    FindAt(s, sep, |head|);
    assert s[..|head|] == head;
    assert s[|head| + |sep|..] == tail;
  }

  /** A text lacking one of the characters of `sub` does not contain `sub`. */
  lemma NotContainsChar(s: string, sub: string, i: nat)
    requires i < |sub| && sub[i] !in s
    ensures !Contains(s, sub)
  {
    forall j | 0 <= j <= |s| && j + |sub| <= |s|
      ensures !OccursAt(s, sub, j)
    {
      assert s[j..j + |sub|][i] == s[j + i];
    }
  }

  /**
   * Splitting `head + sep + tail` at the first `sep` gives back `head` when
   * `head` holds no `sep` and ends in a character foreign to `sep`, so that no
   * occurrence can straddle the two.
   */
  lemma SplitOnceAfterClosed(head: string, sep: string, tail: string)
    requires sep != [] && head != []
    requires !Contains(head, sep) && head[|head| - 1] !in sep
    ensures SplitOnce(head + sep + tail, sep) == Some((head, tail))
  {
    var s := head + sep + tail;
    forall j | 0 <= j < |head|
      ensures !OccursAt(s, sep, j)
    {
      if j + |sep| <= |head| {
        assert OccursAt(s, sep, j) ==> OccursAt(head, sep, j) by {
          assert head[j..j + |sep|] == s[j..j + |sep|];
        }
      } else {
        var k := |head| - 1 - j;
        assert s[j..j + |sep|][k] == head[|head| - 1];
      }
    }
    SplitOnceAt(head, sep, tail);
  }

  /**
   * Splitting `head + sep + tail` at the first `sep` gives back `head` when
   * `head` lacks the second character of `sep` and that character differs from
   * the first.
   */
  lemma SplitOnceBeforeSecond(head: string, sep: string, tail: string)
    requires |sep| >= 2 && sep[0] != sep[1] && sep[1] !in head
    ensures SplitOnce(head + sep + tail, sep) == Some((head, tail))
  {
    var s := head + sep + tail;
    forall j | 0 <= j < |head|
      ensures !OccursAt(s, sep, j)
    {
      assert s[j..j + |sep|][1] == s[j + 1];
      assert j + 1 < |head| ==> s[j + 1] == head[j + 1];
    }
    SplitOnceAt(head, sep, tail);
  }
}
