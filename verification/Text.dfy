/** Configuration text: in-place comment stripping, and the search in a comma-separated list. */
module Text {

  const NUL := '\0'

  // ----- comment stripping -----

  predicate Break(c: char) {
    c == '\r' || c == '\n'
  }

  predicate Blank(c: char) {
    c == ' ' || c == '\t'
  }

  /** The end of the line that starts at `i`. */
  function LineEnd(s: string, i: nat): (e: nat)
    requires i <= |s|
    ensures i <= e <= |s| && (forall k | i <= k < e :: !Break(s[k])) && (e < |s| ==> Break(s[e]))
    decreases |s| - i
  {
    if i < |s| && !Break(s[i]) then LineEnd(s, i + 1) else i
  }

  /** The first position from `i` on that is not a line break. */
  function NextLine(s: string, i: nat): (e: nat)
    requires i <= |s|
    ensures i <= e <= |s| && (forall k | i <= k < e :: Break(s[k])) && (e < |s| ==> !Break(s[e]))
    decreases |s| - i
  {
    if i < |s| && Break(s[i]) then NextLine(s, i + 1) else i
  }

  /** The first position of a line, from `i` on, that is not a blank. */
  function FirstContent(line: string, i: nat): (e: nat)
    requires i <= |line|
    ensures i <= e <= |line| && (forall k | i <= k < e :: Blank(line[k])) && (e < |line| ==> !Blank(line[e]))
    decreases |line| - i
  {
    if i < |line| && Blank(line[i]) then FirstContent(line, i + 1) else i
  }

  /** A comment line: after blanks, '#' or ';'. */
  predicate Comment(line: string) {
    var i := FirstContent(line, 0);
    i < |line| && (line[i] == '#' || line[i] == ';')
  }

  /** In plain words: some character is '#' or ';', and only spaces and tabs come before it. */
  lemma CommentExactly(line: string)
    ensures Comment(line) <==>
              exists i :: 0 <= i < |line| && (line[i] == '#' || line[i] == ';')
                          && forall k | 0 <= k < i :: line[k] == ' ' || line[k] == '\t'
  {
    var first := FirstContent(line, 0);
    if i :| 0 <= i < |line| && (line[i] == '#' || line[i] == ';')
            && forall k | 0 <= k < i :: line[k] == ' ' || line[k] == '\t' {
      FirstContentUnique(line, 0, i);
    }
  }

  function Kept(line: string): string {
    if Comment(line) then "" else line
  }

  /** What the loop computes: line by line, skipping runs of line breaks. */
  function Stripped(s: string): string
    decreases |s|
  {
    if s == "" then ""
    else
      var e := LineEnd(s, 0);
      Kept(s[..e]) + Stripped(s[NextLine(s, e)..])
  }

  /** The lines of a text: every line break ends one. */
  function Lines(s: string): seq<string>
    decreases |s|
  {
    var e := LineEnd(s, 0);
    if e == |s| then [s] else [s[..e]] + Lines(s[e + 1..])
  }

  /** The lines that are not comments, one after the other. */
  function KeptLines(lines: seq<string>): string {
    if lines == [] then "" else Kept(lines[0]) + KeptLines(lines[1..])
  }

  lemma {:induction false} LineEndUnique(s: string, i: nat, e: nat)
    requires i <= e <= |s| && (forall k | i <= k < e :: !Break(s[k])) && (e < |s| ==> Break(s[e]))
    ensures LineEnd(s, i) == e
    decreases e - i
  {
    if i < e {
      LineEndUnique(s, i + 1, e);
    }
  }

  lemma KeptEmpty()
    ensures Kept("") == ""
  {
  }

  /** An extra line break in front adds an empty line, which contributes nothing. */
  lemma LeadingBreak(s: string)
    requires s != "" && Break(s[0])
    ensures KeptLines(Lines(s)) == KeptLines(Lines(s[1..]))
  {
    LineEndUnique(s, 0, 0);
    assert s[..0] == "";
    KeptEmpty();
    var rest := Lines(s[1..]);
    assert Lines(s) == [""] + rest;
    assert ([""] + rest)[1..] == rest;
    assert "" + KeptLines(rest) == KeptLines(rest);
  }

  lemma {:induction false} LeadingBreaks(s: string, n: nat)
    requires n <= |s| && forall k | 0 <= k < n :: Break(s[k])
    ensures KeptLines(Lines(s)) == KeptLines(Lines(s[n..]))
  {
    if n == 0 {
      assert s[0..] == s;
    } else {
      LeadingBreak(s);
      LeadingBreaks(s[1..], n - 1);
      assert s[1..][n - 1..] == s[n..];
    }
  }

  lemma LinesFromEnd(s: string)
    requires LineEnd(s, 0) < |s|
    ensures var e := LineEnd(s, 0); KeptLines(Lines(s)) == Kept(s[..e]) + KeptLines(Lines(s[e + 1..]))
  {
    hide Kept, KeptLines, LineEnd;
    KeptCons(s[..LineEnd(s, 0)], Lines(s[LineEnd(s, 0) + 1..]));
  }

  lemma KeptCons(line: string, rest: seq<string>)
    ensures KeptLines([line] + rest) == Kept(line) + KeptLines(rest)
  {
    hide Kept;
    assert ([line] + rest)[1..] == rest;
  }

  /** Stripping yields exactly the concatenation of the lines that are not comments. */
  lemma {:induction false} StrippedIsKeptLines(s: string)
    ensures Stripped(s) == KeptLines(Lines(s))
    decreases |s|
  {
    hide Kept, KeptLines, Lines, Stripped, LineEnd, NextLine;
    StripOnce(s);
    if s == "" {
      LastLine(s);
      KeptEmpty();
    } else {
      var e := LineEnd(s, 0);
      var n := NextLine(s, e);
      StrippedIsKeptLines(s[n..]);
      if e == |s| {
        LastLine(s);
        LastLine("");
        KeptEmpty();
        StripOnce("");
        assert s[..e] == s && s[n..] == "";
      } else {
        LinesFromEnd(s);
        var t := s[e + 1..];
        LeadingBreaks(t, n - e - 1);
        assert t[n - e - 1..] == s[n..];
      }
    }
  }

  /** Unfolding the first line. */
  lemma StripOnce(s: string)
    ensures s == "" ==> Stripped(s) == ""
    ensures s != "" ==>
              var e := LineEnd(s, 0);
              NextLine(s, e) > 0 && Stripped(s) == Kept(s[..e]) + Stripped(s[NextLine(s, e)..])
  {
    hide Kept;
  }

  lemma LastLine(s: string)
    requires OneLine(s)
    ensures LineEnd(s, 0) == |s| && KeptLines(Lines(s)) == Kept(s)
  {
    LineEndUnique(s, 0, |s|);
    assert Lines(s) == [s];
    assert Kept(s) + KeptLines([]) == Kept(s);
  }

  ghost predicate OneLine(s: string) {
    forall k | 0 <= k < |s| :: !Break(s[k])
  }

  /** A text without carriage returns and line feeds is one line; the first of them ends the
      first line, and the others follow. */
  lemma LinesExactly(s: string, e: nat)
    requires e <= |s| && forall k | 0 <= k < e :: s[k] != '\r' && s[k] != '\n'
    ensures e == |s| ==> Lines(s) == [s]
    ensures e < |s| && (s[e] == '\r' || s[e] == '\n') ==> Lines(s) == [s[..e]] + Lines(s[e + 1..])
  {
    if e == |s| || s[e] == '\r' || s[e] == '\n' {
      LineEndUnique(s, 0, e);
    }
  }

  /** Any text before a line of blanks-then-comment keeps it from being a comment. */
  lemma NotCommentConcat(a: string, b: string)
    requires !Comment(a) && !Comment(b)
    ensures !Comment(a + b)
  {
    var i, j, k := FirstContent(a, 0), FirstContent(b, 0), FirstContent(a + b, 0);
    var s := a + b;
    if i < |a| {
      assert s[i] == a[i];
      FirstContentUnique(s, 0, i);
    } else {
      if j < |b| {
        assert s[|a| + j] == b[j];
      }
      FirstContentUnique(s, 0, |a| + j);
    }
  }

  lemma {:induction false} FirstContentUnique(line: string, i: nat, e: nat)
    requires i <= e <= |line| && (forall k | i <= k < e :: Blank(line[k])) && (e < |line| ==> !Blank(line[e]))
    ensures FirstContent(line, i) == e
    decreases e - i
  {
    if i < e {
      FirstContentUnique(line, i + 1, e);
    }
  }

  lemma {:induction false} StrippedIsOneLine(s: string)
    ensures OneLine(Stripped(s)) && !Comment(Stripped(s))
    decreases |s|
  {
    if s != "" {
      var e := LineEnd(s, 0);
      var rest := s[NextLine(s, e)..];
      StrippedIsOneLine(rest);
      KeptIsNoComment(s[..e]);
      NotCommentConcat(Kept(s[..e]), Stripped(rest));
    }
  }

  lemma KeptIsNoComment(line: string)
    ensures !Comment(Kept(line)) && |Kept(line)| <= |line|
  {
  }

  /** Stripping a second time changes nothing. */
  lemma StrippingIsIdempotent(s: string)
    ensures Stripped(Stripped(s)) == Stripped(s)
  {
    StrippedIsOneLine(s);
    var t := Stripped(s);
    if t != "" {
      LineEndUnique(t, 0, |t|);
      assert NextLine(t, |t|) == |t|;
      assert t[..|t|] == t && t[|t|..] == "";
    }
  }

  /** A C string of length `n` at the start of the buffer. */
  ghost predicate CString(a: array<char>, n: nat)
    reads a
  {
    n < a.Length && a[n] == NUL && forall i | 0 <= i < n :: a[i] != NUL
  }

  /** prepare_config_contents: the read and write positions move over one buffer, the write
      position never passing the read position. */
  method PrepareConfigContents(a: array<char>, ghost n: nat) returns (ghost m: nat)
    requires CString(a, n)
    modifies a
    ensures m <= n && a[m] == NUL && a[..m] == Stripped(old(a[..n]))
    ensures forall i | m < i < a.Length :: a[i] == old(a[i])
  {
    hide Stripped, Kept, Comment, LineEnd, NextLine;
    ghost var s := a[..n];
    var rp, wp := 0, 0;
    StartStripping(s);
    while a[rp] != NUL
      invariant wp <= rp && Unread(a, rp, n, s)
      invariant forall i | wp <= i < a.Length :: a[i] == old(a[i])
      invariant a[..wp] + Stripped(s[rp..]) == Stripped(s)
      decreases n - rp
    {
      rp, wp := HandleLine(a, rp, wp, n, s);
    }
    assert s[rp..] == "";
    EndStripping();
    m := wp;
    a[wp] := NUL;
  }

  /** One round of the outer loop: the line at the read position is kept or dropped. */
  method HandleLine(a: array<char>, rp0: nat, wp0: nat, ghost n: nat, ghost s: string) returns (rp: nat, wp: nat)
    requires wp0 <= rp0 < n && Unread(a, rp0, n, s)
    modifies a
    ensures wp0 <= wp <= rp && rp0 < rp && Unread(a, rp, n, s)
    ensures forall i | wp <= i < a.Length :: a[i] == old(a[i])
    ensures a[..wp] + Stripped(s[rp..]) == old(a[..wp0]) + Stripped(s[rp0..])
  {
    hide Stripped, Kept, Comment, LineEnd, NextLine;
    var lineEnd := FindLineEnd(a, rp0, n, s);
    var comment := IsComment(a, rp0, lineEnd, s);
    StripStep(s, rp0, lineEnd);
    wp := wp0;
    if !comment {
      wp := CopyLine(a, wp0, rp0, lineEnd, s);
    }
    assert a[..wp] == old(a[..wp0]) + Kept(s[rp0..lineEnd]);
    rp := SkipBreaks(a, lineEnd, n, s);
  }

  /** The innermost loop: move one line down to the write position. */
  method CopyLine(a: array<char>, wp0: nat, rp0: nat, lineEnd: nat, ghost s: string) returns (wp: nat)
    requires wp0 <= rp0 <= lineEnd <= |s| && Unread(a, rp0, |s|, s)
    modifies a
    ensures wp == wp0 + (lineEnd - rp0) && Unread(a, lineEnd, |s|, s)
    ensures a[..wp] == old(a[..wp0]) + s[rp0..lineEnd]
    ensures forall i | wp <= i < a.Length :: a[i] == old(a[i])
  {
    wp := wp0;
    var rp := rp0;
    while rp < lineEnd
      invariant rp0 <= rp <= lineEnd && wp == wp0 + (rp - rp0)
      invariant forall i | wp <= i < a.Length :: a[i] == old(a[i])
      invariant forall i | 0 <= i < wp0 :: a[i] == old(a[i])
      invariant forall i | wp0 <= i < wp :: a[i] == s[i - wp0 + rp0]
    {
      a[wp] := a[rp];
      wp, rp := wp + 1, rp + 1;
    }
  }

  /** The unread part of the buffer still holds the original text. */
  ghost predicate Unread(a: array<char>, rp: nat, n: nat, s: string)
    reads a
  {
    && rp <= n == |s| < a.Length && a[n] == NUL
    && (forall i | rp <= i < n :: a[i] == s[i]) && (forall i | 0 <= i < n :: s[i] != NUL)
  }

  method FindLineEnd(a: array<char>, rp: nat, ghost n: nat, ghost s: string) returns (lineEnd: nat)
    requires Unread(a, rp, n, s)
    ensures rp <= lineEnd <= n && lineEnd - rp == LineEnd(s[rp..], 0)
  {
    lineEnd := rp;
    while a[lineEnd] != NUL && a[lineEnd] != '\r' && a[lineEnd] != '\n'
      invariant rp <= lineEnd <= n
      invariant forall i | rp <= i < lineEnd :: !Break(s[i])
      decreases n - lineEnd
    {
      lineEnd := lineEnd + 1;
    }
    LineEndUnique(s[rp..], 0, lineEnd - rp);
  }

  method IsComment(a: array<char>, rp: nat, lineEnd: nat, ghost s: string) returns (comment: bool)
    requires Unread(a, rp, |s|, s) && rp <= lineEnd <= |s|
    ensures comment <==> Comment(s[rp..lineEnd])
  {
    var first := rp;
    while first < lineEnd && (a[first] == ' ' || a[first] == '\t')
      invariant rp <= first <= lineEnd
      invariant forall i | rp <= i < first :: Blank(s[i])
    {
      first := first + 1;
    }
    FirstContentUnique(s[rp..lineEnd], 0, first - rp);
    comment := !(first == lineEnd || (a[first] != '#' && a[first] != ';'));
  }

  method SkipBreaks(a: array<char>, from: nat, ghost n: nat, ghost s: string) returns (rp: nat)
    requires Unread(a, from, n, s)
    ensures from <= rp <= n && rp == NextLine(s, from)
  {
    rp := from;
    while a[rp] == '\r' || a[rp] == '\n'
      invariant from <= rp <= n
      invariant NextLine(s, rp) == NextLine(s, from)
      decreases n - rp
    {
      rp := rp + 1;
    }
  }

  lemma StartStripping(s: string)
    ensures [] + Stripped(s[0..]) == Stripped(s)
  {
    hide Stripped;
    assert s[0..] == s;
  }

  lemma EndStripping()
    ensures Stripped("") == ""
  {
  }

  /** One round of the loop, on the text from `rp` on. */
  lemma StripStep(s: string, rp: nat, lineEnd: nat)
    requires rp < |s| && rp <= lineEnd <= |s| && lineEnd - rp == LineEnd(s[rp..], 0)
    ensures NextLine(s, lineEnd) > rp
    ensures Stripped(s[rp..]) == Kept(s[rp..lineEnd]) + Stripped(s[NextLine(s, lineEnd)..])
    ensures Kept(s[rp..lineEnd]) == if Comment(s[rp..lineEnd]) then "" else s[rp..lineEnd]
  {
    hide Stripped, LineEnd, NextLine, Comment;
    var t, e, n := s[rp..], lineEnd - rp, NextLine(s, lineEnd);
    NextLineUnique(t, e, n - rp);
    StripOnce(t);
    assert t[..e] == s[rp..lineEnd] && t[n - rp..] == s[n..];
  }

  lemma {:induction false} NextLineUnique(s: string, i: nat, e: nat)
    requires i <= e <= |s| && (forall k | i <= k < e :: Break(s[k])) && (e < |s| ==> !Break(s[e]))
    ensures NextLine(s, i) == e
    decreases e - i
  {
    if i < e {
      NextLineUnique(s, i + 1, e);
    }
  }

  // ----- comma-separated lists -----

  predicate OccursAt(h: string, needle: string, p: nat) {
    p + |needle| <= |h| && forall k | 0 <= k < |needle| :: h[p + k] == needle[k]
  }

  /** strstr from position `from` on; -1 when there is no occurrence */
  function Strstr(h: string, from: nat, needle: string): (p: int)
    requires from <= |h|
    ensures p >= 0 ==> from <= p && OccursAt(h, needle, p) && forall k | from <= k < p :: !OccursAt(h, needle, k)
    ensures p < 0 ==> forall k | from <= k :: !OccursAt(h, needle, k)
    decreases |h| - from
  {
    if OccursAt(h, needle, from) then from
    else if from == |h| then -1
    else Strstr(h, from + 1, needle)
  }

  /** An occurrence that starts and ends at a comma or at an end of the list. */
  predicate FieldAt(h: string, needle: string, p: nat) {
    && OccursAt(h, needle, p)
    && (p == 0 || h[p - 1] == ',')
    && (p + |needle| == |h| || h[p + |needle|] == ',')
  }

  /** What a search ends with: an answer, or a read past the end of the list. */
  datatype Search = Answer(found: bool) | PastTheEnd

  /** str_array_contains: the search goes on after overlapping and partial occurrences, ends,
      and misses none.  Only with an empty needle can it run past the end of the list, and
      then it does exactly when the list has no empty field. */
  method StrArrayContains(haystack: string, needle: string) returns (r: Search)
    ensures r == Answer(true) <==> exists p: nat :: FieldAt(haystack, needle, p)
    ensures r.PastTheEnd? <==> needle == "" && !exists p: nat :: FieldAt(haystack, needle, p)
  {
    var pos := Strstr(haystack, 0, needle);
    while pos >= 0
      invariant pos >= 0 ==> OccursAt(haystack, needle, pos)
      invariant needle == "" ==> pos >= 0
      invariant forall k: nat | pos < 0 || k < pos :: !FieldAt(haystack, needle, k)
      decreases if pos < 0 then 0 else |haystack| + 1 - pos
    {
      if pos == 0 || haystack[pos - 1] == ',' {
        if pos + |needle| == |haystack| || haystack[pos + |needle|] == ',' {
          assert FieldAt(haystack, needle, pos);
          return Answer(true);
        }
      }
      if pos == |haystack| {
        return PastTheEnd;
      }
      pos := Strstr(haystack, pos + 1, needle);
    }
    return Answer(false);
  }

  /** The position of the first comma, or the length. */
  function Comma(s: string, i: nat): (e: nat)
    requires i <= |s|
    ensures i <= e <= |s| && (forall k | i <= k < e :: s[k] != ',') && (e < |s| ==> s[e] == ',')
    decreases |s| - i
  {
    if i < |s| && s[i] != ',' then Comma(s, i + 1) else i
  }

  /** The fields of a comma-separated list. */
  function Fields(s: string): seq<string>
    decreases |s|
  {
    var c := Comma(s, 0);
    if c == |s| then [s] else [s[..c]] + Fields(s[c + 1..])
  }

  /** An occurrence at the very front is the whole first field. */
  lemma FrontIsFirstField(h: string, needle: string)
    requires ',' !in needle
    ensures FieldAt(h, needle, 0) <==> needle == h[..Comma(h, 0)]
  {
    if FieldAt(h, needle, 0) {
      var n := |needle|;
      forall k | 0 <= k < n
        ensures h[k] != ','
      {
        assert h[0 + k] == needle[k] && needle[k] in needle;
      }
      CommaUnique(h, 0, n);
    }
  }

  lemma {:induction false} CommaUnique(s: string, i: nat, e: nat)
    requires i <= e <= |s| && (forall k | i <= k < e :: s[k] != ',') && (e < |s| ==> s[e] == ',')
    ensures Comma(s, i) == e
    decreases e - i
  {
    if i < e {
      CommaUnique(s, i + 1, e);
    }
  }

  /** Occurrences in a suffix. */
  lemma OccursInSuffix(h: string, d: nat, needle: string, q: nat)
    requires d <= |h|
    ensures OccursAt(h, needle, q + d) <==> OccursAt(h[d..], needle, q)
  {
    var t := h[d..];
    if OccursAt(h, needle, q + d) {
      forall k | 0 <= k < |needle|
        ensures t[q + k] == needle[k]
      {
        assert h[q + d + k] == needle[k];
      }
    }
    if OccursAt(t, needle, q) {
      forall k | 0 <= k < |needle|
        ensures h[q + d + k] == needle[k]
      {
        assert t[q + k] == needle[k];
      }
    }
  }

  /** Any other occurrence lies in the list after the first comma, and the other way round. */
  lemma LaterFields(h: string, d: nat, t: string, needle: string, q: nat)
    requires 0 < d <= |h| && h[d - 1] == ',' && t == h[d..]
    ensures FieldAt(h, needle, q + d) <==> FieldAt(t, needle, q)
  {
    hide OccursAt;
    OccursInSuffix(h, d, needle, q);
    OccursFits(t, needle, q);
    if OccursAt(t, needle, q) {
      assert q > 0 ==> t[q - 1] == h[q + d - 1];
      assert q + |needle| < |t| ==> t[q + |needle|] == h[q + d + |needle|];
    }
  }

  lemma OccursFits(h: string, needle: string, p: nat)
    ensures OccursAt(h, needle, p) ==> p + |needle| <= |h|
  {
  }

  /** Unfolding the first field. */
  lemma FieldsOnce(h: string)
    ensures var c := Comma(h, 0);
            Fields(h) == if c == |h| then [h[..c]] else [h[..c]] + Fields(h[c + 1..])
  {
    hide Comma;
    if Comma(h, 0) == |h| {
      assert h[..|h|] == h;
    }
  }

  /** The first comma ends the first field, and the others follow. */
  lemma FieldsExactly(s: string, e: nat)
    requires e <= |s| && forall k | 0 <= k < e :: s[k] != ','
    ensures e == |s| ==> Fields(s) == [s]
    ensures e < |s| && s[e] == ',' ==> Fields(s) == [s[..e]] + Fields(s[e + 1..])
  {
    if e == |s| || s[e] == ',' {
      CommaUnique(s, 0, e);
    }
  }

  lemma {:induction false} FieldAtIsField(h: string, needle: string, p: nat)
    requires ',' !in needle && FieldAt(h, needle, p)
    ensures needle in Fields(h)
    decreases |h|
  {
    hide FieldAt, Fields, Comma;
    FieldsOnce(h);
    var c := Comma(h, 0);
    if p == 0 {
      FrontIsFirstField(h, needle);
    } else {
      FieldAfterComma(h, needle, p);
      var t := h[c + 1..];
      LaterFields(h, c + 1, t, needle, p - c - 1);
      FieldAtIsField(t, needle, p - c - 1);
    }
  }

  lemma {:induction false} FieldIsAt(h: string, needle: string) returns (p: nat)
    requires ',' !in needle && needle in Fields(h)
    ensures FieldAt(h, needle, p)
    decreases |h|
  {
    hide FieldAt, Fields, Comma;
    FieldsOnce(h);
    var c := Comma(h, 0);
    if needle == h[..c] {
      FrontIsFirstField(h, needle);
      p := 0;
    } else {
      var t := h[c + 1..];
      var q := FieldIsAt(t, needle);
      LaterFields(h, c + 1, t, needle, q);
      p := q + c + 1;
    }
  }

  /** For a needle without commas, such an occurrence exists exactly when the needle is one of
      the fields. */
  lemma FieldAtIffField(h: string, needle: string)
    requires ',' !in needle
    ensures (exists p: nat :: FieldAt(h, needle, p)) <==> needle in Fields(h)
  {
    hide FieldAt, Fields;
    if p: nat :| FieldAt(h, needle, p) {
      FieldAtIsField(h, needle, p);
    }
    if needle in Fields(h) {
      var p := FieldIsAt(h, needle);
    }
  }

  lemma FieldAfterComma(h: string, needle: string, p: nat)
    requires FieldAt(h, needle, p) && p > 0
    ensures Comma(h, 0) < p && Comma(h, 0) < |h|
  {
    hide OccursAt;
    OccursFits(h, needle, p);
    assert h[p - 1] == ',';
  }

  /** str_array_contains on a comma-free needle: is it one of the fields? */
  method ListContains(haystack: string, needle: string) returns (found: bool)
    requires needle != "" && ',' !in needle
    ensures found <==> needle in Fields(haystack)
  {
    var r := StrArrayContains(haystack, needle);
    found := r.found;
    FieldAtIffField(haystack, needle);
  }
}
