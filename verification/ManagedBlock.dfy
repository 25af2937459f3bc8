/** internal/agentrule/version.go: the managed rule block inside a user's file. */
module ManagedBlock {
  import opened Text
  import opened Wrappers

  const OPEN: string := "<!--"
  const BEGIN: string := "rowshape:begin"
  const END: string := "rowshape:end"
  const CLOSE: string := "-->"

  /** \s of the regular expressions. */
  predicate IsWs(c: char) {
    c == ' ' || c == '\t' || c == '\n' || c == '\r' || c == '\U{0C}'
  }

  /** The first position from i on that holds no blank. */
  function SkipWs(s: string, i: nat): (j: nat)
    requires i <= |s|
    ensures i <= j <= |s|
    decreases |s| - i
  {
    if i < |s| && IsWs(s[i]) then SkipWs(s, i + 1) else i
  }

  lemma {:induction false} SkipWsSkips(s: string, i: nat)
    requires i <= |s|
    ensures SkipWs(s, i) < |s| ==> !IsWs(s[SkipWs(s, i)])
    ensures forall k :: i <= k < SkipWs(s, i) ==> IsWs(s[k])
    decreases |s| - i
  {
    if i < |s| && IsWs(s[i]) {
      SkipWsSkips(s, i + 1);
    }
  }

  /** p is what s reads from position i on. */
  predicate Reads(s: string, i: nat, p: string) {
    i + |p| <= |s| && forall k :: 0 <= k < |p| ==> p[k] == s[i + k]
  }

  /** Where a begin marker standing at i ends. */
  function BeginMarker(s: string, i: nat): (r: Option<nat>)
    ensures r.Some? ==> i < r.value <= |s|
  {
    if !Reads(s, i, OPEN) then None
    else
      var j := SkipWs(s, i + 4);
      if Reads(s, j, BEGIN) then Some(j + 14) else None
  }

  /** Where an end marker standing at i ends. */
  function EndMarker(s: string, i: nat): (r: Option<nat>)
    ensures r.Some? ==> i < r.value <= |s|
  {
    if !Reads(s, i, OPEN) then None
    else
      var j := SkipWs(s, i + 4);
      if !Reads(s, j, END) then None
      else
        var k := SkipWs(s, j + 12);
        if Reads(s, k, CLOSE) then Some(k + 3) else None
  }

  /** The first position from i to n with the property. */
  function FirstFrom(n: nat, i: nat, p: nat -> bool): (r: Option<nat>)
    ensures r.Some? ==> i <= r.value <= n && p(r.value) && forall k: nat :: i <= k < r.value ==> !p(k)
    ensures r.None? ==> forall k: nat :: i <= k <= n ==> !p(k)
    decreases n + 1 - i
  {
    if i > n then None else if p(i) then Some(i) else FirstFrom(n, i + 1, p)
  }

  function EndsAt(s: string): nat -> bool {
    (k: nat) => EndMarker(s, k).Some?
  }

  /** The end of the nearest end marker at or after i. */
  function NextEnd(s: string, i: nat): (r: Option<nat>)
    ensures r.Some? ==> i < r.value <= |s|
  {
    var at := FirstFrom(|s|, i, EndsAt(s));
    if at.Some? then
      assert EndsAt(s)(at.value);
      EndMarker(s, at.value)
    else None
  }

  /** A begin marker at b that some end marker follows. */
  predicate Opens(s: string, b: nat) {
    BeginMarker(s, b).Some? && NextEnd(s, BeginMarker(s, b).value).Some?
  }

  function OpensAt(s: string): nat -> bool {
    (b: nat) => Opens(s, b)
  }

  datatype Span = Span(start: nat, end: nat)

  /** FindBlock: the leftmost begin marker that some end marker follows, up to the nearest one. */
  function FindBlock(s: string): (r: Option<Span>)
    ensures r.Some? ==> r.value.start < r.value.end <= |s|
  {
    var at := FirstFrom(|s|, 0, OpensAt(s));
    if at.Some? then
      assert OpensAt(s)(at.value);
      Some(Span(at.value, NextEnd(s, BeginMarker(s, at.value).value).value))
    else None
  }

  /** What the rendered block holds between its markers: version, notice and rule text. */
  type Rule = string

  /** Rule text that could pass for no marker and ends on a line of its own. */
  ghost predicate CleanRule(rule: Rule) {
    rule != "" && rule[|rule| - 1] == '\n' && forall i: nat :: i < |rule| ==> !Reads(rule, i, OPEN)
  }

  function Block(rule: Rule): string {
    "<!-- rowshape:begin" + (rule + "<!-- rowshape:end -->")
  }

  function TrimNewlines(s: string): (t: string)
    ensures t <= s
    ensures t == "" || t[|t| - 1] != '\n'
  {
    if s != "" && s[|s| - 1] == '\n' then TrimNewlines(s[..|s| - 1]) else s
  }

  datatype Outcome = Outcome(content: string, changed: bool)

  function Upsert(block: string, content: string): Outcome {
    var found := FindBlock(content);
    if found.Some? then
      if content[found.value.start..found.value.end] == block then Outcome(content, false)
      else Outcome(content[..found.value.start] + (block + content[found.value.end..]), true)
    else if Trim(content) == "" then Outcome(block + "\n", true)
    else Outcome(Appended(content, block), true)
  }

  /** One blank line separates the text from the block. */
  function Appended(content: string, block: string): string {
    (TrimNewlines(content) + "\n\n") + (block + "\n")
  }

  // ----- markers read only their own text -----

  lemma SkipWsIs(s: string, i: nat, j: nat)
    requires i <= j < |s| && !IsWs(s[j]) && forall k :: i <= k < j ==> IsWs(s[k])
    ensures SkipWs(s, i) == j
  {
    SkipWsSkips(s, i);
  }

  /** s and t have the same first e characters. */
  ghost predicate Agree(s: string, t: string, e: nat) {
    e <= |s| && e <= |t| && s[..e] == t[..e]
  }

  lemma AgreeChars(s: string, t: string, e: nat)
    requires Agree(s, t, e)
    ensures forall k :: 0 <= k < e ==> s[k] == t[k]
  {
    forall k | 0 <= k < e
      ensures s[k] == t[k]
    {
      assert s[..e][k] == t[..e][k];
    }
  }

  lemma SameReads(s: string, t: string, i: nat, p: string, e: nat)
    requires Reads(s, i, p) && i + |p| <= e && Agree(s, t, e)
    ensures Reads(t, i, p)
  {
    AgreeChars(s, t, e);
  }

  lemma SameSkip(s: string, t: string, i: nat, e: nat)
    requires i <= e && Agree(s, t, e) && SkipWs(s, i) < e
    ensures SkipWs(t, i) == SkipWs(s, i)
  {
    AgreeChars(s, t, e);
    SkipWsSkips(s, i);
    SkipWsIs(t, i, SkipWs(s, i));
  }

  lemma ReadsChars(s: string, i: nat, p: string, c: char)
    requires Reads(s, i, p) && forall k :: 0 <= k < |p| ==> p[k] != c
    ensures forall k :: i <= k < i + |p| ==> s[k] != c
  {
    forall k | i <= k < i + |p|
      ensures s[k] != c
    {
      assert p[k - i] == s[i + (k - i)];
    }
  }

  /** A begin marker ends in 'n', and '<' only starts it. */
  lemma BeginChars(s: string, i: nat)
    requires BeginMarker(s, i).Some?
    ensures s[BeginMarker(s, i).value - 1] == 'n'
    ensures forall k :: i < k < BeginMarker(s, i).value ==> s[k] != '<'
  {
    var j := SkipWs(s, i + 4);
    SkipWsSkips(s, i + 4);
    assert BEGIN[13] == s[j + 13];
    assert OPEN[1] == s[i + 1] && OPEN[2] == s[i + 2] && OPEN[3] == s[i + 3];
    ReadsChars(s, j, BEGIN, '<');
  }

  lemma BeginLocal(s: string, t: string, i: nat)
    requires BeginMarker(s, i).Some? && Agree(s, t, BeginMarker(s, i).value)
    ensures BeginMarker(t, i) == BeginMarker(s, i)
  {
    var e := BeginMarker(s, i).value;
    SameReads(s, t, i, OPEN, e);
    SameSkip(s, t, i + 4, e);
    SameReads(s, t, SkipWs(s, i + 4), BEGIN, e);
  }

  lemma EndChars(s: string, i: nat)
    requires EndMarker(s, i).Some?
    ensures s[EndMarker(s, i).value - 1] == '>'
    ensures forall k :: i < k < EndMarker(s, i).value ==> s[k] != '<'
  {
    var j := SkipWs(s, i + 4);
    var k := SkipWs(s, j + 12);
    SkipWsSkips(s, i + 4);
    SkipWsSkips(s, j + 12);
    assert CLOSE[2] == s[k + 2];
    assert OPEN[1] == s[i + 1] && OPEN[2] == s[i + 2] && OPEN[3] == s[i + 3];
    ReadsChars(s, j, END, '<');
    ReadsChars(s, k, CLOSE, '<');
  }

  lemma EndLocal(s: string, t: string, i: nat)
    requires EndMarker(s, i).Some? && Agree(s, t, EndMarker(s, i).value)
    ensures EndMarker(t, i) == EndMarker(s, i)
  {
    var e, j := EndMarker(s, i).value, SkipWs(s, i + 4);
    var k := SkipWs(s, j + 12);
    SameReads(s, t, i, OPEN, e);
    SameSkip(s, t, i + 4, e);
    SameReads(s, t, j, END, e);
    SameSkip(s, t, j + 12, e);
    SameReads(s, t, k, CLOSE, e);
  }

  // ----- searching -----

  lemma NextEndIs(s: string, i: nat, p: nat)
    requires i <= p <= |s| && EndMarker(s, p).Some? && forall k: nat :: i <= k < p ==> EndMarker(s, k).None?
    ensures NextEnd(s, i) == EndMarker(s, p)
  {
    assert EndsAt(s)(p);
    var at := FirstFrom(|s|, i, EndsAt(s));
    assert EndsAt(s)(at.value);
  }

  /** Some end marker from i on means a nearest one, and where it stands. */
  lemma NextEndAt(s: string, i: nat) returns (p: nat)
    requires NextEnd(s, i).Some?
    ensures i <= p <= |s| && EndMarker(s, p) == NextEnd(s, i)
    ensures forall k: nat :: i <= k < p ==> EndMarker(s, k).None?
  {
    p := FirstFrom(|s|, i, EndsAt(s)).value;
    forall k: nat | i <= k < p
      ensures EndMarker(s, k).None?
    {
      assert !EndsAt(s)(k);
    }
  }

  lemma NextEndExists(s: string, i: nat, p: nat)
    requires i <= p <= |s| && EndMarker(s, p).Some?
    ensures NextEnd(s, i).Some?
  {
    assert EndsAt(s)(p);
  }

  lemma FindBlockIs(s: string, b: nat)
    requires b <= |s| && Opens(s, b) && forall k: nat :: k < b ==> !Opens(s, k)
    ensures FindBlock(s) == Some(Span(b, NextEnd(s, BeginMarker(s, b).value).value))
  {
    forall k: nat | k < b
      ensures !OpensAt(s)(k)
    {
    }
    FirstFromIs(|s|, 0, OpensAt(s), b);
  }

  lemma FirstFromIs(n: nat, i: nat, p: nat -> bool, r: nat)
    requires i <= r <= n && p(r) && forall k: nat :: i <= k < r ==> !p(k)
    ensures FirstFrom(n, i, p) == Some(r)
  {
  }

  lemma FindBlockAt(s: string)
    requires FindBlock(s).Some?
    ensures Opens(s, FindBlock(s).value.start)
    ensures FindBlock(s).value.end == NextEnd(s, BeginMarker(s, FindBlock(s).value.start).value).value
  {
    assert OpensAt(s)(FindBlock(s).value.start);
  }

  lemma NothingEarlier(s: string, k: nat)
    requires k <= |s| && (FindBlock(s).Some? ==> k < FindBlock(s).value.start)
    ensures !Opens(s, k)
  {
    var at := FirstFrom(|s|, 0, OpensAt(s));
    assert !OpensAt(s)(k);
  }

  // ----- a block in its place -----

  lemma BlockStands(block: string, pre: string, post: string)
    ensures At(pre + (block + post), |pre|, block)
  {
    var s := pre + (block + post);
    assert s[|pre|..] == block + post;
  }

  lemma AtReads(s: string, p: nat, block: string)
    requires At(s, p, block)
    ensures Reads(s, p, block)
  {
    forall k | 0 <= k < |block|
      ensures block[k] == s[p + k]
    {
      AtChar(s, p, block, k);
    }
  }

  lemma BeginHere(rule: Rule, s: string, p: nat)
    requires Reads(s, p, Block(rule))
    ensures BeginMarker(s, p) == Some(p + 19) && EndMarker(s, p).None?
  {
    var b := Block(rule);
    assert forall k :: 0 <= k < 19 ==> b[k] == s[p + k];
    assert b[4] == s[p + 4] && b[5] == s[p + 5];
    forall k | 0 <= k < 4
      ensures OPEN[k] == s[p + k]
    {
      assert b[k] == OPEN[k];
    }
    forall k | 0 <= k < 14
      ensures BEGIN[k] == s[p + 5 + k]
    {
      assert b[5 + k] == BEGIN[k] && b[5 + k] == s[p + (5 + k)];
    }
    SkipWsIs(s, p + 4, p + 5);
    assert BEGIN[9] != END[9];
  }

  lemma EndHere(rule: Rule, s: string, p: nat)
    requires Reads(s, p, Block(rule))
    ensures EndMarker(s, p + 19 + |rule|) == Some(p + |Block(rule)|)
  {
    var b, n := Block(rule), 19 + |rule|;
    var q, tail := p + n, "<!-- rowshape:end -->";
    assert |b| == n + 21;
    forall k | 0 <= k < 21
      ensures tail[k] == s[q + k]
    {
      assert b[n + k] == tail[k] && b[n + k] == s[p + (n + k)];
    }
    TailMarker(s, q);
  }

  lemma TailMarker(s: string, q: nat)
    requires Reads(s, q, "<!-- rowshape:end -->")
    ensures EndMarker(s, q) == Some(q + 21)
  {
    var tail := "<!-- rowshape:end -->";
    assert tail[4] == s[q + 4] && tail[5] == s[q + 5] && tail[17] == s[q + 17] && tail[18] == s[q + 18];
    forall k | 0 <= k < 4
      ensures OPEN[k] == s[q + k]
    {
      assert tail[k] == s[q + k];
    }
    forall k | 0 <= k < 12
      ensures END[k] == s[q + 5 + k]
    {
      assert tail[5 + k] == s[q + (5 + k)];
    }
    forall k | 0 <= k < 3
      ensures CLOSE[k] == s[q + 18 + k]
    {
      assert tail[18 + k] == s[q + (18 + k)];
    }
    SkipWsIs(s, q + 4, q + 5);
    SkipWsIs(s, q + 17, q + 18);
  }

  /** No comment opens inside the block before its end marker. */
  lemma NoCommentInside(rule: Rule, s: string, p: nat, k: nat)
    requires CleanRule(rule) && Reads(s, p, Block(rule)) && p < k < p + 19 + |rule|
    ensures !Reads(s, k, OPEN)
  {
    var b := Block(rule);
    assert b[k - p] == s[p + (k - p)];
    assert b[18 + |rule|] == rule[|rule| - 1] && b[18 + |rule|] == s[p + (18 + |rule|)];
    if Reads(s, k, OPEN) {
      assert OPEN[0] == s[k + 0];
      assert k >= p + 19;
      ReadsChars(s, k, OPEN, '\n');
      var m := k - p - 19;
      assert m + 4 <= |rule|;
      forall c | 0 <= c < 4
        ensures OPEN[c] == rule[m + c]
      {
        assert b[19 + m + c] == rule[m + c] && b[19 + m + c] == s[p + (19 + m + c)] && OPEN[c] == s[k + c];
      }
      assert Reads(rule, m, OPEN);
    }
  }

  lemma NoOpenNoMarker(s: string, k: nat)
    requires !Reads(s, k, OPEN)
    ensures BeginMarker(s, k).None? && EndMarker(s, k).None?
  {
  }

  lemma NoBeginNoOpens(s: string, k: nat)
    requires BeginMarker(s, k).None?
    ensures !Opens(s, k)
  {
  }

  /** The block stands at p: its begin marker there, its end marker at the end and none between. */
  ghost predicate Marked(s: string, p: nat, q: nat, e: nat) {
    && p + 19 <= q < e <= |s|
    && BeginMarker(s, p) == Some(p + 19)
    && EndMarker(s, q) == Some(e)
    && forall k: nat :: p <= k < q ==> EndMarker(s, k).None?
  }

  lemma BlockMarked(rule: Rule, s: string, p: nat)
    requires CleanRule(rule) && Reads(s, p, Block(rule))
    ensures Marked(s, p, p + 19 + |rule|, p + |Block(rule)|)
  {
    BeginHere(rule, s, p);
    EndHere(rule, s, p);
    forall k: nat | p <= k < p + 19 + |rule|
      ensures EndMarker(s, k).None?
    {
      NoEndInside(rule, s, p, k);
    }
  }

  lemma NoEndInside(rule: Rule, s: string, p: nat, k: nat)
    requires CleanRule(rule) && Reads(s, p, Block(rule)) && p <= k < p + 19 + |rule|
    ensures EndMarker(s, k).None?
  {
    if k == p {
      BeginHere(rule, s, p);
    } else {
      NoCommentInside(rule, s, p, k);
      NoOpenNoMarker(s, k);
    }
  }

  lemma MarkedNextEnd(s: string, p: nat, q: nat, e: nat)
    requires Marked(s, p, q, e)
    ensures NextEnd(s, p + 19) == Some(e) && Opens(s, p)
  {
    NextEndIs(s, p + 19, q);
  }

  lemma MarkedFound(s: string, p: nat, q: nat, e: nat)
    requires Marked(s, p, q, e) && forall i: nat :: i < p ==> BeginMarker(s, i).None?
    ensures FindBlock(s) == Some(Span(p, e))
  {
    MarkedNextEnd(s, p, q, e);
    forall k: nat | k < p
      ensures !Opens(s, k)
    {
      NoBeginNoOpens(s, k);
    }
    FindBlockIs(s, p);
  }

  /** Text that, wherever it stands, is one whole block: a begin marker first, an end
      marker last, n characters in, and none between. */
  ghost predicate Whole(block: string, n: nat) {
    && block != "" && block[0] == '<'
    && forall s: string, p: nat :: At(s, p, block) ==> Marked(s, p, p + n, p + |block|)
  }

  /** A rendered block around clean rule text is one. */
  lemma RenderedBlockIsWhole(rule: Rule)
    requires CleanRule(rule)
    ensures Whole(Block(rule), 19 + |rule|)
  {
    forall s: string, p: nat | At(s, p, Block(rule))
      ensures Marked(s, p, p + (19 + |rule|), p + |Block(rule)|)
    {
      AtReads(s, p, Block(rule));
      BlockMarked(rule, s, p);
    }
  }

  lemma WholeAt(block: string, n: nat, s: string, p: nat)
    requires Whole(block, n) && At(s, p, block)
    ensures Marked(s, p, p + n, p + |block|)
  {
  }

  /** A marker that begins before the block ends before it. */
  lemma MarkerBeforeBlock(s: string, p: nat, i: nat)
    requires i < p < |s| && s[p] == '<'
    ensures BeginMarker(s, i).Some? ==> BeginMarker(s, i).value <= p
    ensures EndMarker(s, i).Some? ==> EndMarker(s, i).value <= p
  {
    if BeginMarker(s, i).Some? {
      BeginChars(s, i);
    }
    if EndMarker(s, i).Some? {
      EndChars(s, i);
    }
  }

  // ----- replacing a block -----

  /** No begin marker stands before the block that was found, once another is put there. */
  lemma NothingBeforeReplaced(content: string, s: string, i: nat)
    requires FindBlock(content).Some? && i < FindBlock(content).value.start < |s|
    requires Agree(s, content, FindBlock(content).value.start) && s[FindBlock(content).value.start] == '<'
    ensures BeginMarker(s, i).None?
  {
    var start := FindBlock(content).value.start;
    if BeginMarker(s, i).Some? {
      MarkerBeforeBlock(s, start, i);
      AgreeShorter(s, content, start, BeginMarker(s, i).value);
      BeginLocal(s, content, i);
      NothingBeforeFound(content, i);
    }
  }

  lemma AgreeShorter(s: string, t: string, e: nat, d: nat)
    requires Agree(s, t, e) && d <= e
    ensures Agree(s, t, d)
  {
    assert s[..e][..d] == s[..d] && t[..e][..d] == t[..d];
  }

  /** Before the block that was found, no begin marker ends by where it starts. */
  lemma NothingBeforeFound(content: string, i: nat)
    requires FindBlock(content).Some? && BeginMarker(content, i).Some?
    requires i < FindBlock(content).value.start
    ensures BeginMarker(content, i).value > FindBlock(content).value.start
  {
    var start := FindBlock(content).value.start;
    FindBlockAt(content);
    if BeginMarker(content, i).value <= start {
      var q := NextEndAt(content, BeginMarker(content, start).value);
      NextEndExists(content, BeginMarker(content, i).value, q);
      NothingEarlier(content, i);
    }
  }

  /** Up to start, s shows no begin marker. */
  ghost predicate NoBegins(s: string, start: nat) {
    forall i: nat :: i < start ==> BeginMarker(s, i).None?
  }

  lemma NoBeginsBefore(content: string, s: string, start: nat, end: nat)
    requires FindBlock(content) == Some(Span(start, end)) && start < |s|
    requires Agree(s, content, start) && s[start] == '<'
    ensures NoBegins(s, start)
  {
    forall i: nat | i < start
      ensures BeginMarker(s, i).None?
    {
      NothingBeforeReplaced(content, s, i);
    }
  }

  lemma AtFirst(s: string, p: nat, block: string)
    requires At(s, p, block) && block != ""
    ensures p < |s| && s[p] == block[0]
  {
    AtChar(s, p, block, 0);
  }

  // ----- appending a block -----

  ghost predicate HasBegin(s: string) {
    exists i: nat :: i < |s| && BeginMarker(s, i).Some?
  }

  /** Below the appended block, the begin markers are those of the content. */
  lemma AppendedBegins(content: string, s: string, p: nat, i: nat)
    requires TrimNewlines(content) <= s && p == |TrimNewlines(content)| + 2 < |s| && i < p
    requires s[p - 1] == '\n' && s[p - 2] == '\n' && s[p] == '<'
    ensures BeginMarker(s, i).Some? ==> BeginMarker(content, i) == BeginMarker(s, i)
  {
    if BeginMarker(s, i).Some? {
      MarkerBeforeBlock(s, p, i);
      BeginChars(s, i);
      BeginLocal(s, content, i);
    }
  }

  lemma AppendedEnds(content: string, s: string, p: nat, i: nat)
    requires TrimNewlines(content) <= s && p == |TrimNewlines(content)| + 2 < |s| && i < p
    requires s[p - 1] == '\n' && s[p - 2] == '\n' && s[p] == '<'
    ensures EndMarker(s, i).Some? ==> EndMarker(content, i) == EndMarker(s, i)
  {
    if EndMarker(s, i).Some? {
      MarkerBeforeBlock(s, p, i);
      EndChars(s, i);
      EndLocal(s, content, i);
    }
  }

  /** A begin marker of the content is still there once the block is appended. */
  lemma KeptBegin(content: string, s: string, i: nat)
    requires TrimNewlines(content) <= s && BeginMarker(content, i).Some?
    ensures BeginMarker(s, i) == BeginMarker(content, i)
    ensures BeginMarker(s, i).value <= |TrimNewlines(content)|
  {
    BeginChars(content, i);
    TrimmedAreNewlines(content);
    BeginLocal(content, s, i);
  }

  lemma {:induction false} TrimmedAreNewlines(content: string)
    ensures forall k :: |TrimNewlines(content)| <= k < |content| ==> content[k] == '\n'
    decreases |content|
  {
    if content != "" && content[|content| - 1] == '\n' {
      TrimmedAreNewlines(content[..|content| - 1]);
    }
  }

  /** s is content, trailing newlines aside, an empty line, and the block at p. */
  ghost predicate AppendedAt(s: string, content: string, block: string, p: nat) {
    && TrimNewlines(content) <= s && p == |TrimNewlines(content)| + 2 < |s|
    && s[p - 1] == '\n' && s[p - 2] == '\n' && s[p] == '<' && At(s, p, block)
  }

  lemma AppendedShape(content: string, block: string)
    requires block != "" && block[0] == '<'
    ensures AppendedAt(Appended(content, block), content, block, |TrimNewlines(content)| + 2)
  {
    BlockStands(block, TrimNewlines(content) + "\n\n", "\n");
  }

  lemma AppendedNoBegins(content: string, s: string, p: nat)
    requires TrimNewlines(content) <= s && p == |TrimNewlines(content)| + 2 < |s| && !HasBegin(content)
    requires s[p - 1] == '\n' && s[p - 2] == '\n' && s[p] == '<'
    ensures NoBegins(s, p)
  {
    forall i: nat | i < p
      ensures BeginMarker(s, i).None?
    {
      AppendedBegins(content, s, p, i);
      if BeginMarker(s, i).Some? {
        BeginMarkerInside(content, i);
      }
    }
  }

  lemma AppendedFound(block: string, n: nat, content: string, s: string, p: nat)
    requires Whole(block, n) && !HasBegin(content) && AppendedAt(s, content, block, p)
    ensures FindBlock(s) == Some(Span(p, p + |block|))
  {
    AppendedNoBegins(content, s, p);
    WholeAt(block, n, s, p);
    MarkedFound(s, p, p + n, p + |block|);
  }

  lemma BeginMarkerInside(s: string, i: nat)
    requires BeginMarker(s, i).Some?
    ensures HasBegin(s)
  {
  }

  /** An unclosed begin marker of the content captures the appended block. */
  lemma AppendedCaptured(block: string, n: nat, content: string, s: string, p: nat)
    requires Whole(block, n) && FindBlock(content).None? && HasBegin(content) && AppendedAt(s, content, block, p)
    ensures FindBlock(s).Some? && FindBlock(s).value.start < p < FindBlock(s).value.end == p + |block|
  {
    WholeAt(block, n, s, p);
    MarkedCaptured(content, s, p, p + n, p + |block|);
  }

  lemma MarkedCaptured(content: string, s: string, p: nat, q: nat, e: nat)
    requires TrimNewlines(content) <= s && p == |TrimNewlines(content)| + 2 < |s|
    requires s[p - 1] == '\n' && s[p - 2] == '\n' && s[p] == '<' && Marked(s, p, q, e)
    requires FindBlock(content).None? && HasBegin(content)
    ensures FindBlock(s).Some? && FindBlock(s).value.end == e && FindBlock(s).value.start < p
  {
    var i: nat :| i < |content| && BeginMarker(content, i).Some?;
    KeptBegin(content, s, i);
    NextEndExists(s, BeginMarker(s, i).value, q);
    OpensMeansFound(s, i);
    FindBlockAt(s);
    CapturedEnd(content, s, p, q, e, FindBlock(s).value.start);
  }

  lemma OpensMeansFound(s: string, i: nat)
    requires i <= |s| && Opens(s, i)
    ensures FindBlock(s).Some? && FindBlock(s).value.start <= i
  {
    if FindBlock(s).None? || FindBlock(s).value.start > i {
      NothingEarlier(s, i);
    }
  }

  lemma CapturedEnd(content: string, s: string, p: nat, q: nat, e: nat, b: nat)
    requires TrimNewlines(content) <= s && p == |TrimNewlines(content)| + 2 < |s| && b < p
    requires s[p - 1] == '\n' && s[p - 2] == '\n' && s[p] == '<' && Marked(s, p, q, e)
    requires FindBlock(content).None? && Opens(s, b)
    ensures NextEnd(s, BeginMarker(s, b).value) == Some(e)
  {
    var from := BeginMarker(s, b).value;
    MarkerBeforeBlock(s, p, b);
    AppendedBegins(content, s, p, b);
    var m := NextEndAt(s, from);
    if m < p {
      AppendedEnds(content, s, p, m);
      NextEndExists(content, from, m);
      NothingEarlier(content, b);
    }
    assert m == q;
  }

  // ----- the theorems -----

  lemma ReadsFirst(s: string, i: nat)
    requires Reads(s, i, OPEN)
    ensures s[i] == '<'
  {
    assert OPEN[0] == s[i + 0];
  }

  lemma BlankHasNoBegin(content: string)
    requires Trim(content) == ""
    ensures !HasBegin(content) && FindBlock(content).None?
  {
    TrimmedAway(content);
    forall i: nat
      ensures BeginMarker(content, i).None?
    {
      if i < |content| && Reads(content, i, OPEN) {
        ReadsFirst(content, i);
      }
    }
    if FindBlock(content).Some? {
      FindBlockAt(content);
    }
  }

  lemma TrimmedAway(s: string)
    requires Trim(s) == ""
    ensures AllBlank(s)
  {
    AllTrimmedRight(TrimLeft(s));
    AllTrimmedLeft(s);
  }

  lemma {:induction false} AllTrimmedRight(s: string)
    requires TrimRight(s) == ""
    ensures AllBlank(s)
  {
    if s != "" {
      AllTrimmedRight(s[..|s| - 1]);
      assert s == s[..|s| - 1] + [s[|s| - 1]];
    }
  }

  lemma {:induction false} AllTrimmedLeft(s: string)
    requires AllBlank(TrimLeft(s))
    ensures AllBlank(s)
  {
    if s != "" && IsBlank(s[0]) {
      AllTrimmedLeft(s[1..]);
      assert s == [s[0]] + s[1..];
    }
  }

  lemma BlankFound(block: string, n: nat, s: string)
    requires Whole(block, n) && At(s, 0, block)
    ensures FindBlock(s) == Some(Span(0, |block|))
  {
    WholeAt(block, n, s, 0);
    MarkedFound(s, 0, n, |block|);
  }

  /** A file whose block is current is left alone. */
  lemma CurrentUnchanged(block: string, s: string, start: nat)
    requires FindBlock(s) == Some(Span(start, start + |block|)) && At(s, start, block)
    ensures !Upsert(block, s).changed
  {
  }

  lemma LongerSpanChanged(block: string, s: string)
    requires FindBlock(s).Some? && FindBlock(s).value.end - FindBlock(s).value.start > |block|
    ensures Upsert(block, s).changed
  {
  }

  lemma ReplacedInPlace(block: string, content: string)
    requires FindBlock(content).Some?
    ensures var span, out := FindBlock(content).value, Upsert(block, content).content;
            && Agree(out, content, span.start) && At(out, span.start, block)
            && out[span.start + |block|..] == content[span.end..]
  {
    var span := FindBlock(content).value;
    if content[span.start..span.end] != block {
      SplicedAgrees(content[..span.start], block, content[span.end..]);
    }
  }

  lemma SplicedAgrees(pre: string, block: string, post: string)
    ensures var s := pre + (block + post);
            s[..|pre|] == pre && At(s, |pre|, block) && s[|pre| + |block|..] == post
  {
    BlockStands(block, pre, post);
  }

  lemma UpsertAppends(block: string, content: string)
    requires FindBlock(content).None? && Trim(content) != "" && block != "" && block[0] == '<'
    ensures AppendedAt(Upsert(block, content).content, content, block, |TrimNewlines(content)| + 2)
  {
    AppendedShape(content, block);
  }

  lemma UpsertFillsBlank(block: string, content: string)
    requires FindBlock(content).None? && Trim(content) == ""
    ensures At(Upsert(block, content).content, 0, block)
  {
    assert (block + "\n")[0..|block|] == block;
  }

  /** A second application reports no change exactly when the file held a whole block
      or no begin marker at all. */
  lemma UpsertIdempotentIff(rule: Rule, content: string)
    requires CleanRule(rule)
    ensures !Upsert(Block(rule), Upsert(Block(rule), content).content).changed
            <==> FindBlock(content).Some? || !HasBegin(content)
  {
    RenderedBlockIsWhole(rule);
    IdempotentIff(Block(rule), 19 + |rule|, content);
  }

  lemma IdempotentIff(block: string, n: nat, content: string)
    requires Whole(block, n)
    ensures !Upsert(block, Upsert(block, content).content).changed <==> FindBlock(content).Some? || !HasBegin(content)
  {
    if FindBlock(content).Some? {
      AgainAfterReplacing(block, n, content);
    } else if Trim(content) == "" {
      BlankHasNoBegin(content);
      AgainAfterFilling(block, n, content);
    } else {
      AgainAfterAppending(block, n, content);
    }
  }

  /** A block standing where no begin marker comes before it is found and left alone. */
  lemma CurrentAt(block: string, n: nat, s: string, start: nat)
    requires Whole(block, n) && At(s, start, block) && NoBegins(s, start)
    ensures FindBlock(s) == Some(Span(start, start + |block|)) && !Upsert(block, s).changed
  {
    WholeAt(block, n, s, start);
    MarkedFound(s, start, start + n, start + |block|);
    CurrentUnchanged(block, s, start);
  }

  lemma SplicedCurrent(block: string, n: nat, content: string, start: nat, end: nat, s: string)
    requires Whole(block, n) && FindBlock(content) == Some(Span(start, end))
    requires Agree(s, content, start) && At(s, start, block)
    ensures FindBlock(s) == Some(Span(start, start + |block|)) && !Upsert(block, s).changed
  {
    AtFirst(s, start, block);
    NoBeginsBefore(content, s, start, end);
    CurrentAt(block, n, s, start);
  }

  lemma AgainAfterReplacing(block: string, n: nat, content: string)
    requires Whole(block, n) && FindBlock(content).Some?
    ensures !Upsert(block, Upsert(block, content).content).changed
    ensures FindBlock(Upsert(block, content).content)
            == Some(Span(FindBlock(content).value.start, FindBlock(content).value.start + |block|))
  {
    var span, out := FindBlock(content).value, Upsert(block, content).content;
    ReplacedInPlace(block, content);
    SplicedCurrent(block, n, content, span.start, span.end, out);
  }

  lemma AgainAfterFilling(block: string, n: nat, content: string)
    requires Whole(block, n) && FindBlock(content).None? && Trim(content) == ""
    ensures !Upsert(block, Upsert(block, content).content).changed
  {
    var out := Upsert(block, content).content;
    UpsertFillsBlank(block, content);
    BlankFound(block, n, out);
    CurrentUnchanged(block, out, 0);
  }

  lemma AgainAfterAppending(block: string, n: nat, content: string)
    requires Whole(block, n) && FindBlock(content).None? && Trim(content) != ""
    ensures Upsert(block, Upsert(block, content).content).changed <==> HasBegin(content)
  {
    var out, p := Upsert(block, content).content, |TrimNewlines(content)| + 2;
    UpsertAppends(block, content);
    if HasBegin(content) {
      AppendedCaptured(block, n, content, out, p);
      LongerSpanChanged(block, out);
    } else {
      AppendedFound(block, n, content, out, p);
      CurrentUnchanged(block, out, p);
    }
  }

  /** In a file with a whole block, the text on both sides of the block is kept. */
  lemma UpsertKeepsSurroundings(rule: Rule, content: string)
    requires CleanRule(rule) && FindBlock(content).Some?
    ensures var out := Upsert(Block(rule), content).content;
            var was, now := FindBlock(content).value, FindBlock(out);
            && now.Some?
            && out[..now.value.start] == content[..was.start]
            && out[now.value.start..now.value.end] == Block(rule)
            && out[now.value.end..] == content[was.end..]
  {
    RenderedBlockIsWhole(rule);
    KeepsSurroundings(Block(rule), 19 + |rule|, content);
  }

  lemma KeepsSurroundings(block: string, n: nat, content: string)
    requires Whole(block, n) && FindBlock(content).Some?
    ensures var out := Upsert(block, content).content;
            var was, now := FindBlock(content).value, FindBlock(out);
            && now.Some?
            && out[..now.value.start] == content[..was.start]
            && out[now.value.start..now.value.end] == block
            && out[now.value.end..] == content[was.end..]
  {
    AgainAfterReplacing(block, n, content);
    ReplacedInPlace(block, content);
  }

  /** In a file without a whole block, the text stays in front of the block, trailing newlines
      aside, and the block is found where it was put exactly when no begin marker precedes it. */
  lemma UpsertKeepsText(rule: Rule, content: string)
    requires CleanRule(rule) && FindBlock(content).None? && Trim(content) != ""
    ensures var out, p := Upsert(Block(rule), content).content, |TrimNewlines(content)| + 2;
            && TrimNewlines(content) <= out && At(out, p, Block(rule)) && FindBlock(out).Some?
            && (FindBlock(out).value == Span(p, p + |Block(rule)|) <==> !HasBegin(content))
  {
    RenderedBlockIsWhole(rule);
    KeepsText(Block(rule), 19 + |rule|, content);
  }

  lemma KeepsText(block: string, n: nat, content: string)
    requires Whole(block, n) && FindBlock(content).None? && Trim(content) != ""
    ensures var out, p := Upsert(block, content).content, |TrimNewlines(content)| + 2;
            && TrimNewlines(content) <= out && At(out, p, block) && FindBlock(out).Some?
            && (FindBlock(out).value == Span(p, p + |block|) <==> !HasBegin(content))
  {
    var out, p := Upsert(block, content).content, |TrimNewlines(content)| + 2;
    UpsertAppends(block, content);
    if HasBegin(content) {
      AppendedCaptured(block, n, content, out, p);
    } else {
      AppendedFound(block, n, content, out, p);
    }
  }

  // ----- two runs over an unclosed begin marker -----

  /** An unclosed begin marker costs its text: the second run replaces everything from the
      first such marker on by the block, and only then do further runs change nothing. */
  lemma UnclosedMarkerCostsText(rule: Rule, content: string)
    requires CleanRule(rule) && FindBlock(content).None? && HasBegin(content)
    ensures var b, first := Block(rule), FirstBegin(content);
            var two := Upsert(b, Upsert(b, content).content);
            && first < |TrimNewlines(content)|
            && two == Outcome(content[..first] + (b + "\n"), true)
            && !Upsert(b, two.content).changed
  {
    RenderedBlockIsWhole(rule);
    CapturedTwice(Block(rule), 19 + |rule|, content);
    AgainAfterReplacing(Block(rule), 19 + |rule|, Upsert(Block(rule), content).content);
  }

  function BeginFrom(s: string, i: nat): (r: nat)
    requires i <= |s|
    ensures i <= r <= |s| && (r < |s| ==> BeginMarker(s, r).Some?)
    decreases |s| - i
  {
    if i == |s| || BeginMarker(s, i).Some? then i else BeginFrom(s, i + 1)
  }

  lemma {:induction false} NoneBefore(s: string, i: nat, k: nat)
    requires i <= |s| && i <= k < BeginFrom(s, i)
    ensures BeginMarker(s, k).None?
    decreases |s| - i
  {
    if i < k {
      NoneBefore(s, i + 1, k);
    }
  }

  /** The leftmost begin marker, or the end of the text without one. */
  function FirstBegin(s: string): nat {
    BeginFrom(s, 0)
  }

  lemma FirstBeginIs(s: string)
    ensures HasBegin(s) <==> BeginsFirstAt(s, FirstBegin(s))
  {
    if HasBegin(s) {
      var i: nat :| i < |s| && BeginMarker(s, i).Some?;
      if i < FirstBegin(s) {
        NoneBefore(s, 0, i);
      }
    }
  }

  /** The content has a begin marker, the leftmost one at first. */
  predicate BeginsFirstAt(s: string, first: nat) {
    first == FirstBegin(s) && first < |s|
  }

  /** The span found after appending starts at the first begin marker of the content. */
  lemma CapturedStart(content: string, s: string, p: nat)
    requires TrimNewlines(content) <= s && p == |TrimNewlines(content)| + 2 < |s|
    requires s[p - 1] == '\n' && s[p - 2] == '\n' && s[p] == '<' && HasBegin(content)
    requires FindBlock(s).Some? && FindBlock(s).value.start < p < FindBlock(s).value.end
    ensures FindBlock(s).value.start == FirstBegin(content) < |TrimNewlines(content)|
  {
    FirstBeginIs(content);
    assert FindBlock(s).value.start >= FirstBegin(content) by {
      FoundIsBegin(content, s, p);
    }
    var q := EndFollows(s, p);
    FirstIsFound(content, s, q, FirstBegin(content));
  }

  /** The end marker of a span across p stands at or after p. */
  lemma EndFollows(s: string, p: nat) returns (q: nat)
    requires p < |s| && s[p] == '<' && FindBlock(s).Some? && FindBlock(s).value.start < p < FindBlock(s).value.end
    ensures p <= q <= |s| && EndMarker(s, q).Some?
  {
    FindBlockAt(s);
    q := NextEndAt(s, BeginMarker(s, FindBlock(s).value.start).value);
    if q < p {
      MarkerBeforeBlock(s, p, q);
    }
  }

  /** With an end marker after the content, the first begin marker opens a block. */
  lemma FirstIsFound(content: string, s: string, q: nat, first: nat)
    requires TrimNewlines(content) <= s && first < |content| && BeginMarker(content, first).Some?
    requires |TrimNewlines(content)| <= q <= |s| && EndMarker(s, q).Some?
    ensures FindBlock(s).Some? && FindBlock(s).value.start <= first < |TrimNewlines(content)|
  {
    KeptBegin(content, s, first);
    NextEndExists(s, BeginMarker(s, first).value, q);
    OpensMeansFound(s, first);
  }

  lemma FoundIsBegin(content: string, s: string, p: nat)
    requires TrimNewlines(content) <= s && p == |TrimNewlines(content)| + 2 < |s|
    requires s[p - 1] == '\n' && s[p - 2] == '\n' && s[p] == '<'
    requires FindBlock(s).Some? && FindBlock(s).value.start < p
    ensures FindBlock(s).value.start >= FirstBegin(content)
  {
    FindBlockAt(s);
    AppendedBegins(content, s, p, FindBlock(s).value.start);
    if FindBlock(s).value.start < FirstBegin(content) {
      NoneBefore(content, 0, FindBlock(s).value.start);
    }
  }

  lemma CapturedTwice(block: string, n: nat, content: string)
    requires Whole(block, n) && FindBlock(content).None? && HasBegin(content)
    ensures var first, two := FirstBegin(content), Upsert(block, Upsert(block, content).content);
            && first < |TrimNewlines(content)| && FindBlock(Upsert(block, content).content).Some?
            && two == Outcome(content[..first] + (block + "\n"), true)
  {
    if Trim(content) == "" {
      BlankHasNoBegin(content);
    }
    AppendedOnce(block, content);
    CapturedOnce(block, n, content);
    SecondRun(block, content, FirstBegin(content));
  }

  lemma CapturedOnce(block: string, n: nat, content: string)
    requires Whole(block, n) && FindBlock(content).None? && HasBegin(content)
    ensures var found := FindBlock(Appended(content, block));
            && found.Some? && found.value.start == FirstBegin(content) < |TrimNewlines(content)|
            && found.value.end == |TrimNewlines(content)| + 2 + |block|
  {
    assert AppendedAt(Appended(content, block), content, block, |TrimNewlines(content)| + 2) by {
      AppendedShape(content, block);
    }
    CapturedSpan(block, n, content, Appended(content, block), |TrimNewlines(content)| + 2);
  }

  lemma CapturedSpan(block: string, n: nat, content: string, s: string, p: nat)
    requires Whole(block, n) && FindBlock(content).None? && HasBegin(content) && AppendedAt(s, content, block, p)
    ensures FindBlock(s).Some? && FindBlock(s).value.end == p + |block|
    ensures FindBlock(s).value.start == FirstBegin(content) < |TrimNewlines(content)|
  {
    assert FindBlock(s).Some? && FindBlock(s).value.start < p < FindBlock(s).value.end == p + |block| by {
      AppendedCaptured(block, n, content, s, p);
    }
    AppendedStart(block, content, s, p);
  }

  lemma AppendedStart(block: string, content: string, s: string, p: nat)
    requires HasBegin(content) && AppendedAt(s, content, block, p)
    requires FindBlock(s).Some? && FindBlock(s).value.start < p < FindBlock(s).value.end
    ensures FindBlock(s).value.start == FirstBegin(content) < |TrimNewlines(content)|
  {
    CapturedStart(content, s, p);
  }

  lemma SecondRun(block: string, content: string, first: nat)
    requires first < |TrimNewlines(content)|
    requires var found := FindBlock(Appended(content, block));
             && found.Some? && found.value.start == first && found.value.end == |TrimNewlines(content)| + 2 + |block|
    ensures Upsert(block, Appended(content, block)) == Outcome(content[..first] + (block + "\n"), true)
  {
    var end := |TrimNewlines(content)| + 2 + |block|;
    assert Appended(content, block)[..first] == content[..first] && Appended(content, block)[end..] == "\n" by {
      AppendedEnd(content, block, first);
    }
    ReplacesSpan(block, Appended(content, block), first, end, content[..first], "\n");
  }

  lemma AppendedOnce(block: string, content: string)
    requires FindBlock(content).None? && Trim(content) != ""
    ensures Upsert(block, content).content == Appended(content, block)
  {
  }

  lemma ReplacesSpan(block: string, s: string, start: nat, end: nat, pre: string, post: string)
    requires FindBlock(s).Some? && FindBlock(s).value.start == start && FindBlock(s).value.end == end
    requires end - start > |block| && s[..start] == pre && s[end..] == post
    ensures Upsert(block, s) == Outcome(pre + (block + post), true)
  {
  }

  lemma AppendedEnd(content: string, block: string, first: nat)
    requires first < |TrimNewlines(content)|
    ensures var s, end := Appended(content, block), |TrimNewlines(content)| + 2 + |block|;
            end <= |s| && s[..first] == content[..first] && s[end..] == "\n" && end - first > |block|
  {
    CutConcat(TrimNewlines(content), "\n\n", block, first);
    assert content[..first] == TrimNewlines(content)[..first];
  }

  lemma CutConcat(t: string, gap: string, block: string, first: nat)
    requires first < |t|
    ensures var s := (t + gap) + (block + "\n");
            s[..first] == t[..first] && s[|t| + |gap| + |block|..] == "\n"
  {
  }

  /** Text without a whole block survives two runs exactly when it has no begin marker, or
      what follows the first one, trailing newlines aside, is what the block starts with. */
  lemma TextSurvivesTwiceIff(rule: Rule, content: string)
    requires CleanRule(rule) && FindBlock(content).None? && Trim(content) != ""
    ensures var b, text, first := Block(rule), TrimNewlines(content), FirstBegin(content);
            text <= Upsert(b, Upsert(b, content).content).content
            <==> !HasBegin(content) || (first < |text| && text[first..] <= b)
  {
    var b := Block(rule);
    if HasBegin(content) {
      UnclosedMarkerCostsText(rule, content);
      CutTextSurvives(content, FirstBegin(content), b);
    } else {
      UpsertKeepsText(rule, content);
      UpsertIdempotentIff(rule, content);
      UnchangedIsSame(b, Upsert(b, content).content);
    }
  }

  lemma CutTextSurvives(content: string, first: nat, block: string)
    requires first < |TrimNewlines(content)|
    ensures TrimNewlines(content) <= content[..first] + (block + "\n")
            <==> TrimNewlines(content)[first..] <= block
  {
    TrimmedEnd(content);
    PrefixAfter(TrimNewlines(content), first, content[..first], block);
  }

  lemma TrimmedEnd(content: string)
    ensures TrimNewlines(content) <= content
    ensures TrimNewlines(content) == "" || TrimNewlines(content)[|TrimNewlines(content)| - 1] != '\n'
  {
  }

  lemma PrefixAfter(text: string, first: nat, pre: string, block: string)
    requires first < |text| && text[|text| - 1] != '\n' && pre == text[..first]
    ensures text <= pre + (block + "\n") <==> text[first..] <= block
  {
    var s := pre + (block + "\n");
    if text <= s {
      assert forall k :: 0 <= k < |text| ==> text[k] == s[k];
      assert |text| <= first + |block|;
      forall k | 0 <= k < |text| - first
        ensures text[first..][k] == block[k]
      {
        assert text[first + k] == s[first + k];
      }
    }
    if text[first..] <= block {
      forall k | 0 <= k < |text|
        ensures text[k] == s[k]
      {
        if k >= first {
          assert text[first..][k - first] == block[k - first];
        }
      }
    }
  }

  /** Whatever the file held, a third run changes nothing. */
  lemma SettlesInTwoRuns(rule: Rule, content: string)
    requires CleanRule(rule)
    ensures var b := Block(rule);
            !Upsert(b, Upsert(b, Upsert(b, content).content).content).changed
  {
    var b := Block(rule);
    if FindBlock(content).None? && HasBegin(content) {
      UnclosedMarkerCostsText(rule, content);
    } else {
      UpsertIdempotentIff(rule, content);
      UnchangedIsSame(b, Upsert(b, content).content);
    }
  }

  lemma UnchangedIsSame(block: string, content: string)
    requires !Upsert(block, content).changed
    ensures Upsert(block, content).content == content
  {
  }
}
