/** The string primitives the backend leans on: Python's `str.strip`,
    `str.split` with an explicit separator, `str.rsplit(sep, 1)`, `str.lower`
    and `re.sub(r'\n+', '\n', s)`, each over `seq<char>`. */
module Text {
  import opened Wrappers

  // ---------------------------------------------------------------------------
  // Whitespace and str.strip()

  /** Python's `str.isspace` on code points below 128: tab, line feed,
      vertical tab, form feed, carriage return, the four information
      separators 0x1C..0x1F, and space. */
  predicate IsSpace(c: char) {
    var n := c as int;
    (9 <= n <= 13) || (28 <= n <= 31) || n == 32
  }

  ghost predicate AllSpace(s: string) {
    forall k :: 0 <= k < |s| ==> IsSpace(s[k])
  }

  /** A string `strip()` leaves unchanged: empty, or neither end is whitespace. */
  predicate IsStripped(s: string) {
    |s| == 0 || (!IsSpace(s[0]) && !IsSpace(s[|s| - 1]))
  }

  /** Drops the leading whitespace. */
  function StripStart(s: string): (r: string)
    ensures |r| <= |s|
    ensures |r| == 0 || !IsSpace(r[0])
    ensures r == "" <==> AllSpace(s)
  {
    if |s| > 0 && IsSpace(s[0]) then StripStart(s[1..]) else s
  }

  /** Drops the trailing whitespace. */
  function StripEnd(s: string): (r: string)
    ensures |r| <= |s|
    ensures |r| == 0 || !IsSpace(r[|r| - 1])
    ensures r == "" <==> AllSpace(s)
  {
    if |s| > 0 && IsSpace(s[|s| - 1]) then StripEnd(s[..|s| - 1]) else s
  }

  /** `s.strip()`: `s` without its leading and trailing whitespace. */
  function Strip(s: string): (r: string)
    ensures IsStripped(r)
    ensures |r| <= |s|
    ensures r == "" <==> AllSpace(s)
  {
    var a := StripStart(s);
    StripEndIsPrefix(a);
    StripEnd(a)
  }

  lemma {:induction false} StripStartIsSuffix(s: string)
    ensures var r := StripStart(s); r == s[|s| - |r|..] && AllSpace(s[..|s| - |r|])
    decreases |s|
  {
    if |s| > 0 && IsSpace(s[0]) {
      StripStartIsSuffix(s[1..]);
      var r := StripStart(s);
      assert s[1..][|s| - 1 - |r|..] == s[|s| - |r|..];
      assert s[..|s| - |r|] == [s[0]] + s[1..][..|s| - 1 - |r|];
    }
  }

  lemma {:induction false} StripEndIsPrefix(s: string)
    ensures var r := StripEnd(s); r == s[..|r|] && AllSpace(s[|r|..])
    decreases |s|
  {
    if |s| > 0 && IsSpace(s[|s| - 1]) {
      var init := s[..|s| - 1];
      StripEndIsPrefix(init);
      var r := StripEnd(s);
      assert init[..|r|] == s[..|r|];
      assert s[|r|..] == init[|r|..] + [s[|s| - 1]];
    }
  }

  /** What `strip` removes is whitespace and what it keeps is one slice of
      the input: together with `IsStripped` this pins the result down. */
  lemma StripIsSlice(s: string) returns (i: nat, j: nat)
    ensures i <= j <= |s| && Strip(s) == s[i..j]
    ensures AllSpace(s[..i]) && AllSpace(s[j..])
  {
    var a := StripStart(s);
    var r := StripEnd(a);
    StripStartIsSuffix(s);
    StripEndIsPrefix(a);
    i := |s| - |a|;
    j := i + |r|;
    assert r == s[i..j];
    assert s[j..] == a[|r|..];
  }

  /** Stripping a stripped string changes nothing, so `strip` is idempotent. */
  lemma {:induction false} StripOfStripped(s: string)
    requires IsStripped(s)
    ensures Strip(s) == s
  {
    assert StripStart(s) == s;
    assert StripEnd(s) == s;
  }

  // ---------------------------------------------------------------------------
  // Substring occurrence and str.split(sep)

  /** `sep` occurs in `s` starting at index `i`. */
  predicate OccursAt(s: string, sep: string, i: int) {
    0 <= i && i + |sep| <= |s| && s[i..i + |sep|] == sep
  }

  /** Python's `sep in s`. */
  ghost predicate Contains(s: string, sep: string) {
    exists i :: OccursAt(s, sep, i)
  }

  /** `s.find(sep, from)`: the first occurrence of `sep` at or after `from`. */
  function FindFrom(s: string, sep: string, from: nat): (r: Option<nat>)
    requires |sep| > 0 && from <= |s|
    decreases |s| - from
    ensures r.Some? ==> from <= r.value && OccursAt(s, sep, r.value)
    ensures r.Some? ==> forall i :: from <= i < r.value ==> !OccursAt(s, sep, i)
    ensures r.None? ==> forall i :: from <= i ==> !OccursAt(s, sep, i)
  {
    if from + |sep| > |s| then None
    else if s[from..from + |sep|] == sep then Some(from)
    else FindFrom(s, sep, from + 1)
  }

  /** An occurrence inside a prefix is an occurrence in the whole string. */
  lemma OccursInPrefix(s: string, sep: string, n: nat, i: int)
    requires n <= |s| && OccursAt(s[..n], sep, i)
    ensures OccursAt(s, sep, i) && i + |sep| <= n
  {
    assert s[..n][i..i + |sep|] == s[i..i + |sep|];
  }

  /** An occurrence inside a slice is an occurrence in the whole string. */
  lemma ContainsInSlice(s: string, sep: string, i: nat, j: nat)
    requires i <= j <= |s|
    ensures Contains(s[i..j], sep) ==> Contains(s, sep)
  {
    if Contains(s[i..j], sep) {
      var m :| OccursAt(s[i..j], sep, m);
      forall t | 0 <= t < |sep| ensures s[i + m..i + m + |sep|][t] == sep[t] {
        assert s[i..j][m..m + |sep|][t] == sep[t];
      }
      assert OccursAt(s, sep, i + m);
    }
  }

  /** `s.split(sep)` for a non-empty separator: cut at every non-overlapping
      occurrence of `sep`, scanning left to right. */
  function Split(s: string, sep: string): (parts: seq<string>)
    requires |sep| > 0
    decreases |s|
    ensures |parts| > 0
    ensures forall k :: 0 <= k < |parts| ==> |parts[k]| <= |s| && !Contains(parts[k], sep)
  {
    match FindFrom(s, sep, 0)
    case None =>
      [s]
    case Some(i) =>
      var head := s[..i];
      assert !Contains(head, sep) by {
        forall j | OccursAt(head, sep, j) ensures false {
          OccursInPrefix(s, sep, i, j);
        }
      }
      [head] + Split(s[i + |sep|..], sep)
  }

  /** `sep.join(parts)`. */
  function Join(parts: seq<string>, sep: string): string {
    if |parts| == 0 then ""
    else if |parts| == 1 then parts[0]
    else parts[0] + sep + Join(parts[1..], sep)
  }

  /** Joining the pieces of a split with the same separator restores the input. */
  lemma {:induction false} JoinSplit(s: string, sep: string)
    requires |sep| > 0
    ensures Join(Split(s, sep), sep) == s
    decreases |s|
  {
    match FindFrom(s, sep, 0)
    case None =>
    case Some(i) =>
      var rest := s[i + |sep|..];
      JoinSplit(rest, sep);
      assert Split(s, sep) == [s[..i]] + Split(rest, sep);
      assert s == s[..i] + sep + rest;
  }

  /** A string without the separator splits into itself alone. */
  lemma SplitWithoutSeparator(s: string, sep: string)
    requires |sep| > 0 && !Contains(s, sep)
    ensures Split(s, sep) == [s]
  {
  }

  /** Number of times `c` appears in `s`. */
  function Count(s: string, c: char): nat {
    if |s| == 0 then 0 else (if s[0] == c then 1 else 0) + Count(s[1..], c)
  }

  lemma {:induction false} CountAppend(a: string, b: string, c: char)
    ensures Count(a + b, c) == Count(a, c) + Count(b, c)
    decreases |a|
  {
    if |a| == 0 {
      assert a + b == b;
    } else {
      assert (a + b)[0] == a[0];
      assert (a + b)[1..] == a[1..] + b;
      CountAppend(a[1..], b, c);
    }
  }

  lemma {:induction false} CountAbsent(s: string, c: char)
    requires c !in s
    ensures Count(s, c) == 0
    decreases |s|
  {
    if |s| > 0 {
      assert c !in s[1..];
      CountAbsent(s[1..], c);
    }
  }

  /** For a one-character separator, occurrence is plain membership. */
  lemma OccursAtChar(s: string, c: char, i: int)
    ensures OccursAt(s, [c], i) <==> 0 <= i < |s| && s[i] == c
  {
    if 0 <= i < |s| {
      assert s[i..i + 1] == [s[i]];
    }
  }

  lemma ContainsChar(s: string, c: char)
    ensures Contains(s, [c]) <==> c in s
  {
    if c in s {
      var i :| 0 <= i < |s| && s[i] == c;
      OccursAtChar(s, c, i);
    }
    if Contains(s, [c]) {
      var i :| OccursAt(s, [c], i);
      OccursAtChar(s, c, i);
    }
  }

  /** Splitting on one character gives one more piece than there are
      occurrences of it, and no piece contains it. */
  lemma {:induction false} SplitCharCount(s: string, c: char)
    ensures |Split(s, [c])| == Count(s, c) + 1
    ensures forall k :: 0 <= k < |Split(s, [c])| ==> c !in Split(s, [c])[k]
    decreases |s|
  {
    var parts := Split(s, [c]);
    forall k | 0 <= k < |parts| ensures c !in parts[k] {
      ContainsChar(parts[k], c);
    }
    match FindFrom(s, [c], 0)
    case None =>
      ContainsChar(s, c);
      CountAbsent(s, c);
    case Some(i) =>
      OccursAtChar(s, c, i);
      var rest := s[i + 1..];
      SplitCharCount(rest, c);
      ContainsChar(s[..i], c);
      assert !Contains(s[..i], [c]) by {
        forall j | OccursAt(s[..i], [c], j) ensures false {
          OccursInPrefix(s, [c], i, j);
        }
      }
      CountAbsent(s[..i], c);
      assert s == s[..i] + [c] + rest;
      CountAppend(s[..i] + [c], rest, c);
      CountAppend(s[..i], [c], c);
  }

  /** For a one-character separator the split is the only decomposition:
      any non-empty list of pieces free of `c` that joins back to `s` with
      `c` is `s.split(c)`. */
  lemma {:induction false} SplitCharUnique(s: string, c: char, parts: seq<string>)
    requires |parts| > 0 && Join(parts, [c]) == s
    requires forall k :: 0 <= k < |parts| ==> c !in parts[k]
    ensures Split(s, [c]) == parts
    decreases |parts|
  {
    if |parts| == 1 {
      ContainsChar(s, c);
      SplitWithoutSeparator(s, [c]);
    } else {
      var head := parts[0];
      var rest := Join(parts[1..], [c]);
      var i := |head|;
      assert s == head + [c] + rest;
      assert s[..i] == head;
      assert s[i + 1..] == rest;
      OccursAtChar(s, c, i);
      forall j | 0 <= j < i ensures !OccursAt(s, [c], j) {
        OccursAtChar(s, c, j);
        assert s[j] == head[j];
      }
      assert FindFrom(s, [c], 0) == Some(i);
      SplitCharUnique(rest, c, parts[1..]);
    }
  }

  // ---------------------------------------------------------------------------
  // re.sub(r'\n+', '\n', s)

  /** No two consecutive newlines: the string contains no `"\n\n"`. */
  predicate NoBlankLine(s: string) {
    forall k :: 0 <= k < |s| - 1 ==> !(s[k] == '\n' && s[k + 1] == '\n')
  }

  /** Length of the run of newlines that `s` starts with. */
  function NewlineRun(s: string): (n: nat)
    ensures n <= |s|
    ensures forall k :: 0 <= k < n ==> s[k] == '\n'
    ensures n == |s| || s[n] != '\n'
  {
    if |s| > 0 && s[0] == '\n' then 1 + NewlineRun(s[1..]) else 0
  }

  /** `re.sub(r'\n+', '\n', s)`: scanning left to right, every maximal run of
      newlines (the greedy, leftmost match of `\n+`) becomes one newline. */
  function CollapseNewlines(s: string): (r: string)
    decreases |s|
    ensures NoBlankLine(r)
    ensures |r| <= |s|
    ensures |s| > 0 ==> |r| > 0 && r[0] == s[0]
    ensures forall c :: c in r ==> c in s
  {
    if |s| == 0 then ""
    else if s[0] == '\n' then
      var tail := CollapseNewlines(s[NewlineRun(s)..]);
      "\n" + tail
    else
      [s[0]] + CollapseNewlines(s[1..])
  }

  /** A string with no blank line is a fixed point of the collapse, so the
      collapse is idempotent. */
  lemma {:induction false} CollapseNoBlankLine(s: string)
    requires NoBlankLine(s)
    ensures CollapseNewlines(s) == s
    decreases |s|
  {
    if |s| > 0 {
      if s[0] == '\n' {
        assert NewlineRun(s) == 1 by {
          if |s| > 1 {
            assert !(s[0] == '\n' && s[1] == '\n');
          }
        }
      }
      assert NoBlankLine(s[1..]) by {
        forall k | 0 <= k < |s[1..]| - 1 ensures !(s[1..][k] == '\n' && s[1..][k + 1] == '\n') {
          assert s[1..][k] == s[k + 1] && s[1..][k + 1] == s[k + 2];
        }
      }
      CollapseNoBlankLine(s[1..]);
      assert s == [s[0]] + s[1..];
    }
  }

  /** Every character of `s` other than newline, in order. */
  function WithoutNewlines(s: string): string {
    if |s| == 0 then ""
    else if s[0] == '\n' then WithoutNewlines(s[1..])
    else [s[0]] + WithoutNewlines(s[1..])
  }

  lemma {:induction false} WithoutNewlinesRun(s: string, n: nat)
    requires n <= |s| && forall k :: 0 <= k < n ==> s[k] == '\n'
    ensures WithoutNewlines(s) == WithoutNewlines(s[n..])
    decreases n
  {
    if n > 0 {
      WithoutNewlinesRun(s[1..], n - 1);
      assert s[1..][n - 1..] == s[n..];
    }
  }

  /** The collapse only removes newlines: the text between them is kept
      character for character. */
  lemma {:induction false} CollapseKeepsText(s: string)
    ensures WithoutNewlines(CollapseNewlines(s)) == WithoutNewlines(s)
    decreases |s|
  {
    if |s| > 0 {
      if s[0] == '\n' {
        var n := NewlineRun(s);
        CollapseKeepsText(s[n..]);
        var tail := CollapseNewlines(s[n..]);
        assert ("\n" + tail)[1..] == tail;
        WithoutNewlinesRun(s, n);
      } else {
        CollapseKeepsText(s[1..]);
        var tail := CollapseNewlines(s[1..]);
        assert ([s[0]] + tail)[1..] == tail;
      }
    }
  }

  /** The newline-free text contains no `"\n\n"`, so the double-newline split
      never cuts it. */
  lemma NoBlankLineNoParagraphBreak(s: string)
    requires NoBlankLine(s)
    ensures !Contains(s, "\n\n")
  {
    forall i | 0 <= i && i + 2 <= |s| ensures !OccursAt(s, "\n\n", i) {
      assert s[i..i + 2][0] == s[i] && s[i..i + 2][1] == s[i + 1];
    }
  }

  /** A slice of a string with no blank line has none either. */
  lemma NoBlankLineSlice(s: string, i: int, j: int)
    requires 0 <= i <= j <= |s| && NoBlankLine(s)
    ensures NoBlankLine(s[i..j])
  {
    forall k | 0 <= k < j - i - 1 ensures !(s[i..j][k] == '\n' && s[i..j][k + 1] == '\n') {
      assert s[i..j][k] == s[i + k] && s[i..j][k + 1] == s[i + k + 1];
    }
  }

  // ---------------------------------------------------------------------------
  // str.rsplit(sep, 1) and str.lower()

  /** The text after the last `c` in `s`, or all of `s` when `c` is absent. */
  function AfterLast(s: string, c: char): (r: string)
    ensures c !in r
    ensures c !in s ==> r == s
    ensures c in s ==> |r| < |s| && s[|s| - |r| - 1] == c && r == s[|s| - |r|..]
  {
    if |s| == 0 then ""
    else if s[|s| - 1] == c then ""
    else
      var init := s[..|s| - 1];
      assert c in s ==> c in init by {
        if c in s {
          var k :| 0 <= k < |s| && s[k] == c;
          assert init[k] == c;
        }
      }
      AfterLast(init, c) + [s[|s| - 1]]
  }

  /** `s.rsplit(c, 1)`: one piece when `c` is absent, otherwise the text
      before and the text after the last `c`. */
  function RSplitOnce(s: string, c: char): (parts: seq<string>)
    ensures 1 <= |parts| <= 2
    ensures |parts| == 1 <==> c !in s
    ensures Join(parts, [c]) == s
    ensures c !in parts[|parts| - 1]
    ensures parts[|parts| - 1] == AfterLast(s, c)
  {
    var tail := AfterLast(s, c);
    if c in s then
      var head := s[..|s| - |tail| - 1];
      assert s == head + [c] + tail;
      [head, tail]
    else [s]
  }

  /** The text after the last `c` of `a + [c] + b` is `b` when `b` has no
      `c`, whatever `a` holds. */
  lemma {:induction false} AfterLastOf(a: string, c: char, b: string)
    requires c !in b
    ensures AfterLast(a + [c] + b, c) == b
    decreases |b|
  {
    var s := a + [c] + b;
    if |b| == 0 {
      assert s[|s| - 1] == c;
    } else {
      var init, x := b[..|b| - 1], b[|b| - 1];
      assert b == init + [x];
      assert x != c && c !in init;
      assert s[|s| - 1] == x;
      assert s[..|s| - 1] == a + [c] + init;
      AfterLastOf(a, c, init);
      assert AfterLast(s, c) == AfterLast(s[..|s| - 1], c) + [x];
    }
  }

  /** ASCII case folding: `A`..`Z` to `a`..`z`, everything else unchanged. */
  function LowerChar(c: char): char {
    if 'A' <= c <= 'Z' then (c as int + 32) as char else c
  }

  /** `s.lower()` on ASCII letters. */
  function Lower(s: string): (r: string)
    ensures |r| == |s|
    ensures forall k :: 0 <= k < |s| ==> r[k] == LowerChar(s[k])
    ensures forall k :: 0 <= k < |r| ==> !('A' <= r[k] <= 'Z')
  {
    seq(|s|, k requires 0 <= k < |s| => LowerChar(s[k]))
  }
}
