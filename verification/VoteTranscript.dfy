/** The two scanners of a vote transcript: one collects every archon's block, the other the
    block of a dissenting archon; and the tagged artifacts inside a block. */
module VoteTranscript {
  import opened Prelude
  import opened Text

  const HEADER := "--- Vote from"
  const FALLBACK := "Dissent rationale captured in vote transcript (see witness hash)."

  predicate IsHeader(line: string) {
    HEADER <= line
  }

  /** The id of a header: its last parenthesised group. */
  function HeaderId(line: string): string {
    if '(' in line && ')' in line then BeforeFirst(AfterLast(line, '('), ')') else "unknown"
  }

  function Marker(archon: string): string {
    "(" + archon + ")"
  }

  // ---------- vote blocks ----------

  /** The blocks collected so far, and the archon whose block is open. */
  datatype Parse = Parse(blocks: map<string, seq<string>>, current: Option<string>)

  function ParseLine(p: Parse, line: string): Parse {
    if IsHeader(line) then
      var id := HeaderId(line);
      Parse(if id in p.blocks then p.blocks else p.blocks[id := []], Some(id))
    else if p.current.Some? && p.current.value in p.blocks then
      Parse(p.blocks[p.current.value := p.blocks[p.current.value] + [line]], p.current)
    else p
  }

  function ParseLines(lines: seq<string>): Parse {
    if lines == [] then Parse(map[], None)
    else ParseLine(ParseLines(lines[..|lines| - 1]), lines[|lines| - 1])
  }

  method ParseVoteBlocks(lines: seq<string>) returns (blocks: map<string, seq<string>>)
    ensures blocks == ParseLines(lines).blocks
  {
    blocks := map[];
    var current: Option<string> := None;
    for i := 0 to |lines|
      invariant Parse(blocks, current) == ParseLines(lines[..i])
      invariant current.Some? ==> current.value in blocks
    {
      assert lines[..i + 1][..i] == lines[..i];
      var raw := lines[i];
      if IsHeader(raw) {
        var id := HeaderId(raw);
        if id !in blocks {
          blocks := blocks[id := []];
        }
        current := Some(id);
        continue;
      }
      if current.Some? {
        blocks := blocks[current.value := blocks[current.value] + [raw]];
      }
    }
    assert lines[..|lines|] == lines;
  }

  // ---------- dissent rationale ----------

  datatype Capture = Capture(capturing: bool, done: bool, text: seq<string>)

  function CaptureLine(c: Capture, archon: string, line: string): Capture {
    if c.done then c
    else if IsHeader(line) && Contains(line, Marker(archon)) then c.(capturing := true)
    else if c.capturing && IsHeader(line) then c.(done := true)
    else if c.capturing then c.(text := c.text + [line])
    else c
  }

  function CaptureLines(lines: seq<string>, archon: string): Capture {
    if lines == [] then Capture(false, false, [])
    else CaptureLine(CaptureLines(lines[..|lines| - 1], archon), archon, lines[|lines| - 1])
  }

  function Rationale(text: seq<string>): string {
    if Strip(Join(text)) == "" then FALLBACK else Strip(Join(text))
  }

  lemma {:induction false} DoneStays(lines: seq<string>, i: nat, archon: string)
    requires i <= |lines| && CaptureLines(lines[..i], archon).done
    ensures CaptureLines(lines, archon) == CaptureLines(lines[..i], archon)
    decreases |lines| - i
  {
    if i == |lines| {
      assert lines[..i] == lines;
    } else {
      assert lines[..i + 1][..i] == lines[..i];
      DoneStays(lines, i + 1, archon);
    }
  }

  method ExtractDissentRationale(lines: seq<string>, archon: string) returns (rationale: string)
    ensures rationale == Rationale(CaptureLines(lines, archon).text)
  {
    var marker := Marker(archon);
    var capture := false;
    var captured: seq<string> := [];
    ghost var c := Capture(false, false, []);
    var i := 0;
    while i < |lines|
      invariant 0 <= i <= |lines|
      invariant c == CaptureLines(lines[..i], archon) && !c.done
      invariant capture == c.capturing && captured == c.text
    {
      assert lines[..i + 1][..i] == lines[..i];
      var line := lines[i];
      c := CaptureLine(c, archon, line);
      if IsHeader(line) && Contains(line, marker) {
        capture := true;
        i := i + 1;
        continue;
      }
      if capture && IsHeader(line) {
        DoneStays(lines, i + 1, archon);
        break;
      }
      if capture {
        captured := captured + [line];
      }
      i := i + 1;
    }
    assert lines[..|lines|] == lines;
    rationale := Strip(Join(captured));
    if rationale == "" {
      rationale := FALLBACK;
    }
  }

  // ---------- agreement of the two scanners ----------

  /** On every header, the dissent marker and the parsed id name the archon alike. */
  ghost predicate SameHeaders(lines: seq<string>, archon: string) {
    forall i :: 0 <= i < |lines| && IsHeader(lines[i]) ==>
      (Contains(lines[i], Marker(archon)) <==> HeaderId(lines[i]) == archon)
  }

  function BlockOf(p: Parse, archon: string): seq<string> {
    if archon in p.blocks then p.blocks[archon] else []
  }

  /** The archon's block in the parse. */
  function Block(lines: seq<string>, archon: string): seq<string> {
    BlockOf(ParseLines(lines), archon)
  }

  /** Whether a line extends the archon's block after another header has ended its capture. */
  predicate ComesLater(c: Capture, p: Parse, archon: string, line: string) {
    c.done && !IsHeader(line) && p.current == Some(archon)
  }

  /** The lines of the archon's block that come after another header has ended its first
      uninterrupted stretch. */
  function Later(lines: seq<string>, archon: string): seq<string> {
    if lines == [] then [] else
      var front, last := lines[..|lines| - 1], lines[|lines| - 1];
      Later(front, archon) + if ComesLater(CaptureLines(front, archon), ParseLines(front), archon, last) then [last] else []
  }

  /** The block is what was captured, and what came later. */
  ghost predicate Split(c: Capture, p: Parse, later: seq<string>, archon: string) {
    && BlockOf(p, archon) == c.text + later
    && (p.current.Some? ==> p.current.value in p.blocks)
    && (!c.done ==> later == [] && (c.capturing <==> p.current == Some(archon)))
  }

  lemma SplitLine(c: Capture, p: Parse, later: seq<string>, archon: string, line: string)
    requires Split(c, p, later, archon)
    requires IsHeader(line) ==> (Contains(line, Marker(archon)) <==> HeaderId(line) == archon)
    ensures Split(CaptureLine(c, archon, line), ParseLine(p, line),
                  later + if ComesLater(c, p, archon, line) then [line] else [], archon)
  {
    assert c.text + (later + [line]) == (c.text + later) + [line];
    assert later + [] == later;
    assert later == [] ==> c.text + later == c.text && (c.text + [line]) + later == c.text + [line];
  }

  lemma {:induction false} BlockSplits(lines: seq<string>, archon: string)
    requires SameHeaders(lines, archon)
    ensures Split(CaptureLines(lines, archon), ParseLines(lines), Later(lines, archon), archon)
  {
    if lines != [] {
      var front, last := lines[..|lines| - 1], lines[|lines| - 1];
      BlockSplits(front, archon);
      SplitLine(CaptureLines(front, archon), ParseLines(front), Later(front, archon), archon, last);
    }
  }

  lemma AgreeWhenSplit(block: seq<string>, text: seq<string>, later: seq<string>)
    requires block == text + later
    ensures Strip(Join(text)) == Strip(Join(block)) <==> AllBlank(later)
  {
    AppendedLines(text, later);
  }

  lemma AlikeAgreeExactly(lines: seq<string>, archon: string)
    requires SameHeaders(lines, archon)
    ensures Strip(Join(CaptureLines(lines, archon).text)) == Strip(Join(Block(lines, archon)))
            <==> AllBlank(Later(lines, archon))
  {
    BlockSplits(lines, archon);
    AgreeWhenSplit(Block(lines, archon), CaptureLines(lines, archon).text, Later(lines, archon));
  }

  /** At most one header names the archon. */
  ghost predicate OneHeader(lines: seq<string>, archon: string) {
    forall i, j :: 0 <= i < j < |lines| && IsHeader(lines[i]) && IsHeader(lines[j]) ==>
      !(HeaderId(lines[i]) == archon && HeaderId(lines[j]) == archon)
  }

  ghost predicate Named(lines: seq<string>, archon: string) {
    exists i :: 0 <= i < |lines| && IsHeader(lines[i]) && HeaderId(lines[i]) == archon
  }

  lemma {:induction false} OneHeaderNothingLater(lines: seq<string>, archon: string)
    requires SameHeaders(lines, archon) && OneHeader(lines, archon)
    ensures Later(lines, archon) == []
    ensures CaptureLines(lines, archon).capturing ==> Named(lines, archon)
    ensures CaptureLines(lines, archon).done ==>
              CaptureLines(lines, archon).capturing && ParseLines(lines).current != Some(archon)
  {
    if lines != [] {
      var front, last := lines[..|lines| - 1], lines[|lines| - 1];
      OneHeaderNothingLater(front, archon);
      assert forall i :: 0 <= i < |front| ==> front[i] == lines[i];
      if IsHeader(last) && HeaderId(last) == archon {
        assert !Named(front, archon);
        assert Named(lines, archon) by {
          assert lines[|lines| - 1] == last;
        }
      } else if Named(front, archon) {
        var i :| 0 <= i < |front| && IsHeader(front[i]) && HeaderId(front[i]) == archon;
        assert IsHeader(lines[i]) && HeaderId(lines[i]) == archon;
      }
    }
  }

  // ---------- headers ----------

  predicate NoParens(s: string) {
    '(' !in s && ')' !in s
  }

  /** A header whose last parenthesised group is an id without parentheses parses to that id,
      and carries its marker. */
  lemma LastGroupNames(before: string, id: string, after: string)
    requires NoParens(id) && '(' !in after
    ensures var line := before + Marker(id) + after;
            HeaderId(line) == id && Contains(line, Marker(id))
  {
    var line := before + Marker(id) + after;
    ContainsWithin(before, Marker(id), after);
    var tail := id + ")" + after;
    assert line == before + ['('] + tail;
    assert line[|before|] == '(' && line[|before| + 1 + |id|] == ')';
    assert '(' !in tail;
    AfterLastOf(before, '(', tail);
    assert tail == id + [')'] + after;
    BeforeFirstOf(id, ')', after);
  }

  /** The marker of another archon can only stand before the last group. */
  lemma MarkerStandsBefore(before: string, id: string, after: string, x: string, i: nat)
    requires NoParens(id) && NoParens(x) && '(' !in after && x != id
    requires i <= |before + Marker(id) + after| && Marker(x) <= (before + Marker(id) + after)[i..]
    ensures i + |Marker(x)| <= |before| && Marker(x) <= before[i..]
  {
    var line, m, m' := before + Marker(id) + after, Marker(x), Marker(id);
    assert forall j :: 0 <= j < |m| ==> line[i + j] == line[i..][j] == m[j];
    assert line[i] == '(';
    assert line[|before|] == '(';
    assert forall j :: 0 <= j < |m'| ==> line[|before| + j] == m'[j];
    var tail := id + ")" + after;
    assert forall j :: 0 <= j < |tail| ==> tail[j] != '(' && line[|before| + 1 + j] == tail[j];
    assert forall j :: 1 <= j <= |x| ==> m[j] == x[j - 1];
    if i == |before| {
      SameGroup(x, id, line[i..]);
    }
    assert line[i..][..|m|] == before[i..][..|m|];
  }

  lemma GroupEnds(x: string, s: string)
    requires NoParens(x) && Marker(x) <= s
    ensures |x| + 1 < |s| && s[|x| + 1] == ')' && s[1..|x| + 1] == x
    ensures forall j :: 0 <= j <= |x| ==> s[j] != ')'
  {
    var m := Marker(x);
    assert m[|x| + 1] == ')' && m[1..|x| + 1] == x;
    assert forall j :: 0 <= j < |m| ==> s[j] == m[j];
    assert forall j :: 1 <= j <= |x| ==> m[j] == x[j - 1];
    assert s[1..|x| + 1] == m[1..|x| + 1];
  }

  lemma SameGroup(x: string, id: string, s: string)
    requires NoParens(id) && NoParens(x) && Marker(x) <= s && Marker(id) <= s
    ensures x == id
  {
    GroupEnds(x, s);
    GroupEnds(id, s);
  }

  /** The two scanners take a header for the same archon exactly unless what stands before its
      last group already holds that archon's marker. */
  lemma HeaderNamesExactly(before: string, id: string, after: string, archon: string)
    requires NoParens(id) && NoParens(archon) && '(' !in after
    ensures var line := before + Marker(id) + after;
            (Contains(line, Marker(archon)) <==> HeaderId(line) == archon)
            <==> archon == id || !Contains(before, Marker(archon))
  {
    var line := before + Marker(id) + after;
    LastGroupNames(before, id, after);
    if archon != id {
      if Contains(before, Marker(archon)) {
        ContainsLonger(before, Marker(id), after, Marker(archon));
      }
      if Contains(line, Marker(archon)) {
        ContainsExactly(line, Marker(archon));
        var i :| 0 <= i <= |line| && Marker(archon) <= line[i..];
        MarkerStandsBefore(before, id, after, archon, i);
        ContainsExactly(before, Marker(archon));
      }
    }
  }

  /** The header the deliberation adapter writes. */
  function AdapterHeader(name: string, id: string): string {
    BeforeId(name) + Marker(id) + AFTER_ID
  }

  function BeforeId(name: string): string {
    "--- Vote from " + name + " "
  }

  const AFTER_ID := " ---"

  /** Every header is the adapter's, with no parenthesis opened in the name. */
  ghost predicate AdapterTranscript(lines: seq<string>) {
    forall i :: 0 <= i < |lines| && IsHeader(lines[i]) ==> FromAdapter(lines[i])
  }

  ghost predicate FromAdapter(line: string) {
    exists name, id :: '(' !in name && NoParens(id) && line == AdapterHeader(name, id)
  }

  lemma {:induction false} NoMarker(s: string, archon: string)
    requires '(' !in s
    ensures !Contains(s, Marker(archon))
  {
    assert Marker(archon)[0] == '(';
    if s != "" {
      assert s[0] in s;
      NoMarker(s[1..], archon);
    }
  }

  lemma AdapterHeaderNames(name: string, id: string, archon: string)
    requires '(' !in name && NoParens(id) && NoParens(archon)
    ensures Contains(AdapterHeader(name, id), Marker(archon)) <==> id == archon
    ensures HeaderId(AdapterHeader(name, id)) == id
  {
    NoMarker(BeforeId(name), archon);
    HeaderNamesExactly(BeforeId(name), id, AFTER_ID, archon);
    LastGroupNames(BeforeId(name), id, AFTER_ID);
  }

  lemma AdapterSameHeaders(lines: seq<string>, archon: string)
    requires AdapterTranscript(lines) && NoParens(archon)
    ensures SameHeaders(lines, archon)
  {
    forall i | 0 <= i < |lines| && IsHeader(lines[i])
      ensures Contains(lines[i], Marker(archon)) <==> HeaderId(lines[i]) == archon
    {
      var name, id :| '(' !in name && NoParens(id) && lines[i] == AdapterHeader(name, id);
      AdapterHeaderNames(name, id, archon);
    }
  }

  /** On a transcript with the adapter's headers, the two scanners agree on an archon's text
      exactly when whatever follows an interruption of its block is blank. */
  lemma ScannersAgreeExactly(lines: seq<string>, archon: string)
    requires AdapterTranscript(lines) && NoParens(archon)
    ensures Strip(Join(CaptureLines(lines, archon).text)) == Strip(Join(Block(lines, archon)))
            <==> AllBlank(Later(lines, archon))
  {
    AdapterSameHeaders(lines, archon);
    AlikeAgreeExactly(lines, archon);
  }

  /** With one header per archon, the rationale is the text of the parsed block, or the
      fallback when there is none. */
  lemma OneHeaderScannersAgree(lines: seq<string>, archon: string)
    requires AdapterTranscript(lines) && NoParens(archon) && OneHeader(lines, archon)
    ensures Rationale(CaptureLines(lines, archon).text) == Rationale(Block(lines, archon))
  {
    AdapterSameHeaders(lines, archon);
    BlockSplits(lines, archon);
    OneHeaderNothingLater(lines, archon);
    var text := CaptureLines(lines, archon).text;
    assert text + [] == text;
  }

  lemma MarkerInName(name: string, id: string, archon: string)
    requires NoParens(id) && Contains(name, Marker(archon))
    ensures var header := AdapterHeader(name, id);
            IsHeader(header) && HeaderId(header) == id && Contains(header, Marker(archon))
  {
    LastGroupNames(BeforeId(name), id, AFTER_ID);
    ContainsWider("--- Vote from ", name, " ", Marker(archon));
    ContainsLonger(BeforeId(name), Marker(id), AFTER_ID, Marker(archon));
  }

  lemma ContainsLonger(s: string, a: string, b: string, t: string)
    requires Contains(s, t)
    ensures Contains(s + a + b, t)
  {
    ContainsWider("", s, a + b, t);
    assert "" + s + (a + b) == s + a + b;
  }

  /** What the scanners make of one block whose header only the dissent scan takes for the
      archon's. */
  lemma OneBlock(header: string, text: string, archon: string)
    requires IsHeader(header) && Contains(header, Marker(archon)) && HeaderId(header) != archon && !IsHeader(text)
    ensures CaptureLines([header, text], archon).text == [text]
    ensures Block([header, text], archon) == []
  {
    assert [header, text][..1] == [header] && [header][..0] == [];
    assert CaptureLines([header], archon) == Capture(true, false, []);
    assert ParseLines([header]).current == Some(HeaderId(header));
  }

  /** Otherwise they may disagree, even with one header: a name that holds an archon's marker
      names that archon to the dissent scan, and nobody to the parse. */
  lemma MarkerInNameDisagrees(name: string, id: string, archon: string, text: string)
    requires NoParens(id) && archon != id && Contains(name, Marker(archon))
    requires !IsHeader(text) && Strip(text) != "" && Strip(text) != FALLBACK
    ensures var lines := [AdapterHeader(name, id), text];
            Rationale(CaptureLines(lines, archon).text) == Strip(text) && Rationale(Block(lines, archon)) == FALLBACK
  {
    MarkerInName(name, id, archon);
    OneBlock(AdapterHeader(name, id), text, archon);
  }

  /** A header without a parenthesised group is nobody's: its block goes under "unknown". */
  lemma {:induction false} UngroupedBlock(header: string, body: seq<string>)
    requires IsHeader(header) && ('(' !in header || ')' !in header) && NoHeader(body)
    ensures ParseLines([header] + body) == Parse(map["unknown" := body], Some("unknown"))
  {
    var lines := [header] + body;
    if body == [] {
      assert lines[..0] == [] && lines == [header];
    } else {
      UngroupedBlock(header, body[..|body| - 1]);
      assert lines[..|lines| - 1] == [header] + body[..|body| - 1];
      assert body[..|body| - 1] + [body[|body| - 1]] == body;
    }
  }

  // ---------- the transcript the adapter writes ----------

  datatype Ballot = Ballot(name: string, id: string, response: seq<string>)

  predicate NoHeader(lines: seq<string>) {
    forall i :: 0 <= i < |lines| ==> !("--- Vote from" <= lines[i])
  }

  ghost predicate WellFormed(b: Ballot) {
    '(' !in b.name && NoParens(b.id) && NoHeader(b.response)
  }

  function WriteBallots(bs: seq<Ballot>): seq<string> {
    if bs == [] then [] else
      var b := bs[|bs| - 1];
      WriteBallots(bs[..|bs| - 1]) + [AdapterHeader(b.name, b.id)] + b.response + [""]
  }

  /** A preamble, every archon's ballot, and a summary of the votes. */
  function WriteTranscript(preamble: seq<string>, bs: seq<Ballot>, summary: seq<string>): seq<string> {
    preamble + WriteBallots(bs) + summary
  }

  /** What both scans have made of the lines: a capture, and nothing that the parse alone would
      add to the archon's block. */
  ghost predicate Scanned(lines: seq<string>, archon: string, c: Capture) {
    && SameHeaders(lines, archon)
    && CaptureLines(lines, archon) == c && Later(lines, archon) == []
    && (c.done ==> ParseLines(lines).current != Some(archon))
  }

  lemma ScannedLine(lines: seq<string>, line: string, archon: string, c: Capture)
    requires Scanned(lines, archon, c)
    requires IsHeader(line) ==> (Contains(line, Marker(archon)) <==> HeaderId(line) == archon)
    requires IsHeader(line) && HeaderId(line) == archon ==> !c.done
    ensures Scanned(lines + [line], archon, CaptureLine(c, archon, line))
  {
    assert (lines + [line])[..|lines|] == lines;
    assert Later(lines, archon) + [] == [];
  }

  /** The capture after lines that are no headers. */
  function Longer(c: Capture, body: seq<string>): Capture {
    if c.capturing && !c.done then c.(text := c.text + body) else c
  }

  lemma LongerLine(c: Capture, archon: string, body: seq<string>, line: string)
    requires !IsHeader(line)
    ensures CaptureLine(Longer(c, body), archon, line) == Longer(c, body + [line])
    ensures Longer(c, []) == c
  {
    assert c.text + [] == c.text;
    assert c.text + (body + [line]) == c.text + body + [line];
  }

  lemma {:induction false} ScannedBody(lines: seq<string>, body: seq<string>, archon: string, c: Capture)
    requires Scanned(lines, archon, c) && NoHeader(body)
    ensures Scanned(lines + body, archon, Longer(c, body))
  {
    if body == [] {
      LongerLine(c, archon, [], "");
      assert lines + [] == lines;
    } else {
      var front, last := body[..|body| - 1], body[|body| - 1];
      ScannedBody(lines, front, archon, c);
      LongerLine(c, archon, front, last);
      ScannedLine(lines + front, last, archon, Longer(c, front));
      SplitLast(body);
      assert lines + body == lines + front + [last];
    }
  }

  /** One ballot is captured if it is the archon's; otherwise it ends the archon's, if any. */
  function AfterBallot(c: Capture, b: Ballot, archon: string): Capture {
    if c.done then c
    else if b.id == archon then Capture(true, false, c.text + b.response + [""])
    else if c.capturing then c.(done := true)
    else c
  }

  lemma ScannedBallot(lines: seq<string>, b: Ballot, archon: string, c: Capture)
    requires Scanned(lines, archon, c) && WellFormed(b) && NoParens(archon)
    requires b.id == archon ==> !c.done
    ensures Scanned(lines + [AdapterHeader(b.name, b.id)] + b.response + [""], archon, AfterBallot(c, b, archon))
  {
    var header := AdapterHeader(b.name, b.id);
    AdapterHeaderNames(b.name, b.id, archon);
    assert IsHeader(header);
    ScannedLine(lines, header, archon, c);
    var c' := CaptureLine(c, archon, header);
    ScannedBody(lines + [header], b.response + [""], archon, c');
    assert lines + [header] + (b.response + [""]) == lines + [header] + b.response + [""];
    assert c'.text + (b.response + [""]) == c'.text + b.response + [""];
  }

  ghost predicate DistinctIds(bs: seq<Ballot>) {
    forall i, j :: 0 <= i < j < |bs| ==> bs[i].id != bs[j].id
  }

  /** The capture of the k-th archon after the ballots. */
  function Captured(bs: seq<Ballot>, k: nat): Capture {
    if k >= |bs| then Capture(false, false, []) else Capture(true, k + 1 < |bs|, bs[k].response + [""])
  }

  lemma CapturedNext(bs: seq<Ballot>, k: nat, archon: string)
    requires bs != [] && (bs[|bs| - 1].id == archon <==> |bs| - 1 == k)
    ensures AfterBallot(Captured(bs[..|bs| - 1], k), bs[|bs| - 1], archon) == Captured(bs, k)
  {
    var response := bs[|bs| - 1].response;
    assert [] + response + [""] == response + [""];
  }

  lemma Regroup<T>(p: seq<T>, w: seq<T>, h: seq<T>, r: seq<T>, e: seq<T>)
    ensures p + (w + h + r + e) == p + w + h + r + e
  {
  }

  lemma {:induction false} ScannedBallots(preamble: seq<string>, bs: seq<Ballot>, k: nat, archon: string)
    requires NoHeader(preamble) && NoParens(archon)
    requires forall i :: 0 <= i < |bs| ==> WellFormed(bs[i]) && (bs[i].id == archon <==> i == k)
    ensures Scanned(preamble + WriteBallots(bs), archon, Captured(bs, k))
  {
    if bs == [] {
      ScannedBody([], preamble, archon, Capture(false, false, []));
      assert preamble + [] == preamble == [] + preamble;
    } else {
      var front, b := bs[..|bs| - 1], bs[|bs| - 1];
      ScannedBallots(preamble, front, k, archon);
      ScannedBallot(preamble + WriteBallots(front), b, archon, Captured(front, k));
      CapturedNext(bs, k, archon);
      Regroup(preamble, WriteBallots(front), [AdapterHeader(b.name, b.id)], b.response, [""]);
    }
  }

  /** The text both scanners find under the k-th archon of a transcript. */
  function Attributed(bs: seq<Ballot>, summary: seq<string>, k: nat): seq<string>
    requires k < |bs|
  {
    bs[k].response + [""] + if k == |bs| - 1 then summary else []
  }

  /** Round trip: from the transcript the adapter writes, both scanners attribute to every
      archon the same text. It is the archon's response exactly unless its ballot is the last
      one: the summary that follows is not set off by a header. */
  lemma TranscriptRoundTrip(preamble: seq<string>, bs: seq<Ballot>, summary: seq<string>, k: nat)
    requires k < |bs| && DistinctIds(bs) && NoHeader(preamble) && NoHeader(summary)
    requires forall i :: 0 <= i < |bs| ==> WellFormed(bs[i])
    ensures var lines := WriteTranscript(preamble, bs, summary);
            && CaptureLines(lines, bs[k].id).text == Attributed(bs, summary, k) == Block(lines, bs[k].id)
            && (Strip(Join(Attributed(bs, summary, k))) == Strip(Join(bs[k].response))
                <==> k < |bs| - 1 || AllBlank(summary))
  {
    var archon, written := bs[k].id, preamble + WriteBallots(bs);
    var c := Captured(bs, k);
    ScannedBallots(preamble, bs, k, archon);
    ScannedBody(written, summary, archon, c);
    var lines := written + summary;
    BlockSplits(lines, archon);
    var text := CaptureLines(lines, archon).text;
    assert text + [] == text;
    assert bs[k].response + [""] + [] == bs[k].response + [""];
    TailMatters(bs[k].response, if k == |bs| - 1 then summary else []);
  }

  lemma TailMatters(response: seq<string>, tail: seq<string>)
    ensures Strip(Join(response + [""] + tail)) == Strip(Join(response))
            <==> AllBlank(tail)
  {
    AppendedLines(response, [""] + tail);
    assert response + ([""] + tail) == response + [""] + tail;
    BlankFirst(tail);
  }

  lemma BlankFirst(tail: seq<string>)
    ensures AllBlank([""] + tail)
            <==> AllBlank(tail)
  {
    var lines := [""] + tail;
    if AllBlank(lines) {
      forall i | 0 <= i < |tail| ensures Blank(tail[i]) {
        assert lines[i + 1] == tail[i];
      }
    }
  }

  // ---------- tagged artifacts ----------

  datatype Tags = Tags(response: string, question: string, evidence: string)

  const TAGS := Tags("RECORDED RESPONSE:", "KNIGHT QUESTION:", "REQUIRED EVIDENCE:")

  /** All the theorems need of the tags. */
  ghost predicate Proper(tags: Tags) {
    && tags.response != "" && !IsSpace(tags.response[0])
    && tags.question != "" && !IsSpace(tags.question[0])
    && tags.evidence != "" && !IsSpace(tags.evidence[0])
    && tags.response != tags.question && tags.response != tags.evidence
    && tags.question[0] != tags.evidence[0]
  }

  datatype Artifacts = Artifacts(response: Option<string>, question: Option<string>, evidence: Option<string>)

  /** A captured block ends at a blank line or at a line that starts with a tag. */
  predicate Ends(tags: Tags, line: string) {
    || Strip(line) == ""
    || tags.response <= LStrip(line) || tags.question <= LStrip(line) || tags.evidence <= LStrip(line)
  }

  /** The first line from `i` on that ends a block, or the end. */
  function BlockEnd(tags: Tags, lines: seq<string>, i: nat): (end: nat)
    requires i <= |lines|
    ensures i <= end <= |lines|
    decreases |lines| - i
  {
    if i == |lines| || Ends(tags, lines[i]) then i else BlockEnd(tags, lines, i + 1)
  }

  function Stripped(lines: seq<string>): seq<string> {
    seq(|lines|, i requires 0 <= i < |lines| => Strip(lines[i]))
  }

  /** The text of the block opened by a tag in the line at `start`. */
  function TaggedText(tags: Tags, lines: seq<string>, start: nat, tag: string): Option<string>
    requires start < |lines| && Contains(lines[start], tag)
  {
    var first := LStrip(After(lines[start], tag));
    var text := Strip(Join((if first == "" then [] else [first])
                           + Stripped(lines[start + 1..BlockEnd(tags, lines, start + 1)])));
    if text == "" then None else Some(text)
  }

  lemma EndOnwards(tags: Tags, lines: seq<string>, from: nat, i: nat)
    requires from <= i <= |lines|
    requires forall j :: from <= j < i ==> !Ends(tags, lines[j])
    ensures BlockEnd(tags, lines, from) == BlockEnd(tags, lines, i)
    decreases i - from
  {
    if from < i {
      EndOnwards(tags, lines, from + 1, i);
    }
  }

  lemma StrippedSnoc(lines: seq<string>, from: nat, to: nat)
    requires from <= to < |lines|
    ensures Stripped(lines[from..to + 1]) == Stripped(lines[from..to]) + [Strip(lines[to])]
  {
    assert lines[from..to + 1] == lines[from..to] + [lines[to]];
  }

  /** The stripped lines of a block from line `from` on. */
  method CollectBlock(lines: seq<string>, from: nat) returns (block: seq<string>, next: nat)
    requires from <= |lines|
    ensures next == BlockEnd(TAGS, lines, from)
    ensures block == Stripped(lines[from..next])
  {
    block, next := [], from;
    while next < |lines|
      invariant from <= next <= |lines|
      invariant forall j :: from <= j < next ==> !Ends(TAGS, lines[j])
      invariant block == Stripped(lines[from..next])
    {
      var line := lines[next];
      if Strip(line) == "" {
        break;
      }
      if TAGS.response <= LStrip(line) || TAGS.question <= LStrip(line) || TAGS.evidence <= LStrip(line) {
        break;
      }
      StrippedSnoc(lines, from, next);
      block := block + [Strip(line)];
      next := next + 1;
    }
    EndOnwards(TAGS, lines, from, next);
  }

  /** Every grab advances and stays within the lines. */
  method GrabTaggedBlock(lines: seq<string>, start: nat, tag: string) returns (text: Option<string>, next: nat)
    requires start < |lines| && Contains(lines[start], tag)
    ensures text == TaggedText(TAGS, lines, start, tag)
    ensures next == BlockEnd(TAGS, lines, start + 1)
    ensures start < next <= |lines|
  {
    var remainder := LStrip(After(lines[start], tag));
    var captured: seq<string> := if remainder == "" then [] else [remainder];
    var block: seq<string>;
    block, next := CollectBlock(lines, start + 1);
    var joined := Strip(Join(captured + block));
    text := if joined == "" then None else Some(joined);
  }

  /** The tag that a line opens, if any. */
  function TagOf(tags: Tags, line: string): Option<string> {
    var s := Strip(line);
    if Contains(s, tags.response) then Some(tags.response)
    else if tags.question <= s then Some(tags.question)
    else if tags.evidence <= s then Some(tags.evidence)
    else None
  }

  /** The grab never meets a line without its tag. */
  lemma TagPresent(tags: Tags, line: string)
    ensures TagOf(tags, line).Some? ==> Contains(line, TagOf(tags, line).value)
  {
    if TagOf(tags, line).Some? {
      var p, q := StripPiece(line);
      ContainsWider(p, Strip(line), q, TagOf(tags, line).value);
    }
  }

  function Record(tags: Tags, a: Artifacts, tag: string, text: Option<string>): Artifacts {
    if tag == tags.response then a.(response := text)
    else if tag == tags.question then a.(question := text)
    else a.(evidence := text)
  }

  /** The scan from line `i` on. */
  function ScanFrom(tags: Tags, lines: seq<string>, i: nat, a: Artifacts): Artifacts
    requires i <= |lines|
    decreases |lines| - i
  {
    if i == |lines| then a else
      TagPresent(tags, lines[i]);
      match TagOf(tags, lines[i])
      case Some(tag) => ScanFrom(tags, lines, BlockEnd(tags, lines, i + 1), Record(tags, a, tag, TaggedText(tags, lines, i, tag)))
      case None => ScanFrom(tags, lines, i + 1, a)
  }

  method ExtractTaggedArtifacts(lines: seq<string>) returns (a: Artifacts)
    ensures a == ScanFrom(TAGS, lines, 0, Artifacts(None, None, None))
  {
    a := Artifacts(None, None, None);
    var i := 0;
    while i < |lines|
      invariant 0 <= i <= |lines|
      invariant ScanFrom(TAGS, lines, i, a) == ScanFrom(TAGS, lines, 0, Artifacts(None, None, None))
      decreases |lines| - i
    {
      var line := Strip(lines[i]);
      TagPresent(TAGS, lines[i]);
      if Contains(line, TAGS.response) {
        var text, next := GrabTaggedBlock(lines, i, TAGS.response);
        a, i := a.(response := text), next;
        continue;
      }
      if TAGS.question <= line {
        assert Contains(line, TAGS.question);
        var text, next := GrabTaggedBlock(lines, i, TAGS.question);
        a, i := a.(question := text), next;
        continue;
      }
      if TAGS.evidence <= line {
        assert Contains(line, TAGS.evidence);
        var text, next := GrabTaggedBlock(lines, i, TAGS.evidence);
        a, i := a.(evidence := text), next;
        continue;
      }
      i := i + 1;
    }
  }

  // ---------- what is written is read back ----------

  /** A line of an artifact: visible text that does not start with a tag. */
  predicate Plain(tags: Tags, line: string) {
    Trimmed(line) && !(tags.response <= line) && !(tags.question <= line) && !(tags.evidence <= line)
  }

  predicate PlainText(tags: Tags, text: seq<string>) {
    text != [] && forall i :: 0 <= i < |text| ==> Plain(tags, text[i])
  }

  function Opening(tag: string, text: seq<string>): string {
    if text == [] then tag else tag + (" " + text[0])
  }

  function Rendered(tag: string, text: seq<string>): seq<string> {
    [Opening(tag, text)] + if text == [] then [] else text[1..]
  }

  lemma {:induction false} BlockEndsAt(tags: Tags, lines: seq<string>, i: nat, end: nat)
    requires i <= end <= |lines| && (end < |lines| ==> Ends(tags, lines[end]))
    requires forall j :: i <= j < end ==> !Ends(tags, lines[j])
    ensures BlockEnd(tags, lines, i) == end
    decreases end - i
  {
    if i < end {
      BlockEndsAt(tags, lines, i + 1, end);
    }
  }

  lemma PlainDoesNotEnd(tags: Tags, line: string)
    requires Plain(tags, line)
    ensures !Ends(tags, line) && Strip(line) == line
  {
    TrimmedIsStripped(line);
  }

  lemma LStripSpace(s: string)
    requires Trimmed(s)
    ensures LStrip(" " + s) == s
  {
    assert (" " + s)[1..] == s;
    TrimmedIsStripped(s);
  }

  lemma OpeningExactly(tags: Tags, tag: string, text: seq<string>)
    requires PlainText(tags, text) && tag != "" && !IsSpace(tag[0])
    ensures var line := Opening(tag, text);
            && Trimmed(line) && tag <= line
            && Contains(line, tag) && LStrip(After(line, tag)) == text[0]
  {
    assert Plain(tags, text[0]);
    PrefixFound(tag, " " + text[0]);
    LStripSpace(text[0]);
  }

  lemma PlainStripped(tags: Tags, text: seq<string>)
    requires PlainText(tags, text)
    ensures [text[0]] + Stripped(text[1..]) == text
    ensures Strip(Join(text)) == Join(text) != ""
  {
    forall j | 0 <= j < |text| ensures Trimmed(text[j]) && Strip(text[j]) == text[j] {
      assert Plain(tags, text[j]);
      PlainDoesNotEnd(tags, text[j]);
    }
    JoinTrimmed(text);
    TrimmedIsStripped(Join(text));
  }

  /** A written block extends exactly over its lines. */
  lemma RenderedExtent(tags: Tags, lines: seq<string>, i: nat, tag: string, text: seq<string>)
    requires PlainText(tags, text)
    requires i + |text| <= |lines| && lines[i..i + |text|] == Rendered(tag, text)
    requires i + |text| < |lines| ==> Ends(tags, lines[i + |text|])
    ensures lines[i] == Opening(tag, text) && BlockEnd(tags, lines, i + 1) == i + |text|
    ensures lines[i + 1..i + |text|] == text[1..]
  {
    var block := lines[i..i + |text|];
    assert lines[i] == block[0];
    forall j | i + 1 <= j < i + |text| ensures lines[j] == text[j - i] && !Ends(tags, lines[j]) {
      assert lines[j] == block[j - i] == text[j - i];
      assert Plain(tags, text[j - i]);
      PlainDoesNotEnd(tags, text[j - i]);
    }
    BlockEndsAt(tags, lines, i + 1, i + |text|);
  }

  lemma TaggedTextIs(tags: Tags, lines: seq<string>, i: nat, tag: string, text: seq<string>)
    requires i < |lines| && Contains(lines[i], tag) && PlainText(tags, text)
    requires LStrip(After(lines[i], tag)) == text[0] && lines[i + 1..BlockEnd(tags, lines, i + 1)] == text[1..]
    ensures TaggedText(tags, lines, i, tag) == Some(Join(text))
  {
    PlainStripped(tags, text);
    assert Plain(tags, text[0]);
  }

  /** The block written at line `i` is read back as its text. */
  lemma RenderedText(tags: Tags, lines: seq<string>, i: nat, tag: string, text: seq<string>)
    requires PlainText(tags, text) && tag != "" && !IsSpace(tag[0])
    requires i + |text| <= |lines| && lines[i..i + |text|] == Rendered(tag, text)
    requires i + |text| < |lines| ==> Ends(tags, lines[i + |text|])
    ensures lines[i] == Opening(tag, text)
    ensures Contains(lines[i], tag) && BlockEnd(tags, lines, i + 1) == i + |text|
    ensures TaggedText(tags, lines, i, tag) == Some(Join(text))
  {
    RenderedExtent(tags, lines, i, tag, text);
    OpeningExactly(tags, tag, text);
    TaggedTextIs(tags, lines, i, tag, text);
  }

  lemma OpeningTag(tags: Tags, tag: string, text: seq<string>)
    requires Proper(tags)
    requires tag == tags.response || tag == tags.question || tag == tags.evidence
    requires PlainText(tags, text) && (tag != tags.response ==> !Contains(Opening(tag, text), tags.response))
    ensures TagOf(tags, Opening(tag, text)) == Some(tag)
  {
    OpeningExactly(tags, tag, text);
    TrimmedIsStripped(Opening(tag, text));
    assert tags.evidence[0] != tags.question[0];
  }

  /** The scan gets from line `i` to line `j`, turning `a` into `a'`. */
  ghost predicate Advances(tags: Tags, lines: seq<string>, i: nat, a: Artifacts, j: nat, a': Artifacts) {
    i <= |lines| && j <= |lines| && ScanFrom(tags, lines, i, a) == ScanFrom(tags, lines, j, a')
  }

  /** Line `i` opens the tag, and its block is the given text and ends at line `j`. */
  ghost predicate Opens(tags: Tags, lines: seq<string>, i: nat, tag: string, j: nat, text: Option<string>) {
    && i < |lines| && TagOf(tags, lines[i]) == Some(tag) && Contains(lines[i], tag)
    && BlockEnd(tags, lines, i + 1) == j && TaggedText(tags, lines, i, tag) == text
  }

  lemma ScanOpens(tags: Tags, lines: seq<string>, i: nat, tag: string, j: nat, text: Option<string>, a: Artifacts)
    requires Opens(tags, lines, i, tag, j, text)
    ensures Advances(tags, lines, i, a, j, Record(tags, a, tag, text))
  {
  }

  /** A written block is opened, extends over its lines and gives its text. */
  lemma RenderedOpens(tags: Tags, lines: seq<string>, i: nat, tag: string, text: seq<string>)
    requires Proper(tags)
    requires tag == tags.response || tag == tags.question || tag == tags.evidence
    requires PlainText(tags, text) && (tag != tags.response ==> !Contains(Opening(tag, text), tags.response))
    requires i + |text| <= |lines| && lines[i..i + |text|] == Rendered(tag, text)
    requires i + |text| < |lines| ==> Ends(tags, lines[i + |text|])
    ensures Opens(tags, lines, i, tag, i + |text|, Some(Join(text)))
  {
    RenderedText(tags, lines, i, tag, text);
    OpeningTag(tags, tag, text);
  }

  lemma OpeningEnds(tags: Tags, tag: string, text: seq<string>)
    requires Proper(tags)
    requires tag == tags.response || tag == tags.question || tag == tags.evidence
    requires PlainText(tags, text)
    ensures Ends(tags, Opening(tag, text))
  {
    OpeningExactly(tags, tag, text);
    TrimmedIsStripped(Opening(tag, text));
  }

  /** A line that opens no tag. */
  predicate Prose(tags: Tags, line: string) {
    !Contains(line, tags.response) && !(tags.question <= LStrip(line)) && !(tags.evidence <= LStrip(line))
  }

  lemma ProseHasNoTag(tags: Tags, line: string)
    requires Prose(tags, line)
    ensures TagOf(tags, line).None?
  {
    TagPresent(tags, line);
    StripIsPrefix(line);
  }

  lemma StripIsPrefix(s: string)
    ensures Strip(s) <= LStrip(s)
  {
    RStripPiece(LStrip(s));
  }

  /** What is written: a block under a tag, or a line of prose. */
  datatype Item = Tagged(tag: string, text: seq<string>) | Line(line: string) {
    function Lines(): seq<string> {
      match this
      case Tagged(tag, text) => Rendered(tag, text)
      case Line(line) => [line]
    }

    function Size(): nat {
      match this
      case Tagged(_, text) => |text|
      case Line(_) => 1
    }
  }

  /** A block under one of the three tags, of plain lines, or a line that opens no tag. The
      recorded-response tag, which is searched anywhere in a line, must not occur in the opening
      line of another tag. */
  ghost predicate WellWritten(tags: Tags, x: Item) {
    match x
    case Tagged(tag, text) =>
      && (tag == tags.response || tag == tags.question || tag == tags.evidence)
      && PlainText(tags, text)
      && (tag != tags.response ==> !Contains(Opening(tag, text), tags.response))
    case Line(line) => Prose(tags, line)
  }

  /** Only a blank line or another block may follow a block. */
  predicate Separated(items: seq<Item>) {
    forall i :: 0 < i < |items| && items[i - 1].Tagged? && items[i].Line? ==> Blank(items[i].line)
  }

  ghost predicate Written(tags: Tags, items: seq<Item>) {
    Separated(items) && forall i :: 0 <= i < |items| ==> WellWritten(tags, items[i])
  }

  function Render(items: seq<Item>): seq<string> {
    if items == [] then [] else items[0].Lines() + Render(items[1..])
  }

  /** The artifacts after one item, and after all: the last block of a tag counts. */
  function ReadItem(tags: Tags, x: Item, a: Artifacts): Artifacts {
    match x
    case Tagged(tag, text) => Record(tags, a, tag, Some(Join(text)))
    case Line(_) => a
  }

  function ReadBack(tags: Tags, items: seq<Item>, a: Artifacts): Artifacts {
    if items == [] then a else ReadBack(tags, items[1..], ReadItem(tags, items[0], a))
  }

  lemma TailSplit<T>(s: seq<T>, i: nat, x: seq<T>, y: seq<T>)
    requires i <= |s| && s[i..] == x + y
    ensures i + |x| <= |s| && s[i..i + |x|] == x && s[i + |x|..] == y
    ensures i + |x| < |s| ==> y != [] && s[i + |x|] == y[0]
  {
    assert s[i..][..|x|] == s[i..i + |x|];
    assert s[i..][|x|..] == s[i + |x|..];
  }

  lemma ItemStarts(tags: Tags, x: Item)
    requires Proper(tags) && WellWritten(tags, x) && (x.Line? ==> Blank(x.line))
    ensures x.Lines() != [] && Ends(tags, x.Lines()[0])
  {
    match x
    case Tagged(tag, text) => OpeningEnds(tags, tag, text);
    case Line(line) => StripBlank(line);
  }

  /** The item stands at line `i`, and what follows a block ends it. */
  ghost predicate Placed(tags: Tags, lines: seq<string>, i: nat, x: Item) {
    && WellWritten(tags, x)
    && i + x.Size() <= |lines| && lines[i..i + x.Size()] == x.Lines()
    && (x.Tagged? && i + x.Size() < |lines| ==> Ends(tags, lines[i + x.Size()]))
  }

  /** The items stand one after the other from line `i` to the end. */
  ghost predicate Laid(tags: Tags, lines: seq<string>, i: nat, items: seq<Item>)
    decreases |items|
  {
    if items == [] then i == |lines|
    else Placed(tags, lines, i, items[0]) && Laid(tags, lines, i + items[0].Size(), items[1..])
  }

  lemma LaidOn(tags: Tags, lines: seq<string>, i: nat, items: seq<Item>)
    requires items != []
    ensures Laid(tags, lines, i, items) <==>
            Placed(tags, lines, i, items[0]) && Laid(tags, lines, i + items[0].Size(), items[1..])
  {
  }

  lemma ItemIsPlaced(tags: Tags, lines: seq<string>, i: nat, x: Item, rest: seq<string>)
    requires WellWritten(tags, x) && (x.Tagged? && rest != [] ==> Ends(tags, rest[0]))
    requires i <= |lines| && lines[i..] == x.Lines() + rest
    ensures Placed(tags, lines, i, x) && lines[i + x.Size()..] == rest
  {
    assert |x.Lines()| == x.Size();
    TailSplit(lines, i, x.Lines(), rest);
  }

  lemma RestStarts(tags: Tags, items: seq<Item>)
    requires Proper(tags) && Written(tags, items) && items != [] && items[0].Tagged?
    ensures Render(items[1..]) != [] ==> Ends(tags, Render(items[1..])[0])
  {
    if |items| > 1 {
      ItemStarts(tags, items[1]);
      assert items[1..][0] == items[1];
    }
  }

  lemma WrittenRest(tags: Tags, items: seq<Item>)
    requires Written(tags, items) && items != []
    ensures WellWritten(tags, items[0]) && Written(tags, items[1..])
  {
    var rest := items[1..];
    assert forall i :: 0 <= i < |rest| ==> rest[i] == items[i + 1];
  }

  lemma {:induction false} RenderIsLaid(tags: Tags, lines: seq<string>, i: nat, items: seq<Item>)
    requires Proper(tags) && Written(tags, items)
    requires i <= |lines| && lines[i..] == Render(items)
    ensures Laid(tags, lines, i, items)
    decreases |items|
  {
    if items == [] {
      assert |lines[i..]| == |lines| - i;
    } else {
      WrittenRest(tags, items);
      if items[0].Tagged? {
        RestStarts(tags, items);
      }
      ItemIsPlaced(tags, lines, i, items[0], Render(items[1..]));
      RenderIsLaid(tags, lines, i + items[0].Size(), items[1..]);
      LaidOn(tags, lines, i, items);
    }
  }

  lemma SkipLine(tags: Tags, lines: seq<string>, i: nat, a: Artifacts)
    requires i < |lines| && TagOf(tags, lines[i]).None?
    ensures Advances(tags, lines, i, a, i + 1, a)
  {
  }

  lemma PlacedOpens(tags: Tags, lines: seq<string>, i: nat, x: Item)
    requires Proper(tags) && Placed(tags, lines, i, x) && x.Tagged?
    ensures Opens(tags, lines, i, x.tag, i + x.Size(), Some(Join(x.text)))
  {
    RenderedOpens(tags, lines, i, x.tag, x.text);
  }

  lemma PlacedLine(tags: Tags, lines: seq<string>, i: nat, x: Item)
    requires Placed(tags, lines, i, x) && x.Line?
    ensures i < |lines| && TagOf(tags, lines[i]).None?
  {
    assert lines[i] == lines[i..i + 1][0] == x.line;
    ProseHasNoTag(tags, x.line);
  }

  lemma PlacedScan(tags: Tags, lines: seq<string>, i: nat, x: Item, a: Artifacts)
    requires Proper(tags) && Placed(tags, lines, i, x)
    ensures Advances(tags, lines, i, a, i + x.Size(), ReadItem(tags, x, a))
  {
    if x.Tagged? {
      PlacedOpens(tags, lines, i, x);
      ScanOpens(tags, lines, i, x.tag, i + x.Size(), Some(Join(x.text)), a);
    } else {
      PlacedLine(tags, lines, i, x);
      SkipLine(tags, lines, i, a);
    }
  }

  lemma ReadBackFirst(tags: Tags, items: seq<Item>, a: Artifacts)
    requires items != []
    ensures ReadBack(tags, items, a) == ReadBack(tags, items[1..], ReadItem(tags, items[0], a))
  {
  }

  /** The scan from line `i` on reads the items, whatever was found before. */
  ghost predicate Reads(tags: Tags, lines: seq<string>, i: nat, items: seq<Item>) {
    i <= |lines| && forall a :: ScanFrom(tags, lines, i, a) == ReadBack(tags, items, a)
  }

  lemma {:induction false} LaidScan(tags: Tags, lines: seq<string>, i: nat, items: seq<Item>)
    requires Proper(tags) && i <= |lines| && Laid(tags, lines, i, items)
    ensures Reads(tags, lines, i, items)
    decreases |items|
  {
    if items != [] {
      var x := items[0];
      LaidOn(tags, lines, i, items);
      LaidScan(tags, lines, i + x.Size(), items[1..]);
      forall a ensures ScanFrom(tags, lines, i, a) == ReadBack(tags, items, a) {
        PlacedScan(tags, lines, i, x, a);
        ReadBackFirst(tags, items, a);
      }
    }
  }

  lemma RenderedScan(tags: Tags, items: seq<Item>, a: Artifacts)
    requires Proper(tags) && Written(tags, items)
    ensures ScanFrom(tags, Render(items), 0, a) == ReadBack(tags, items, a)
  {
    var lines := Render(items);
    assert lines[0..] == lines;
    RenderIsLaid(tags, lines, 0, items);
    LaidScan(tags, lines, 0, items);
  }

  /** The text of the last block under a tag, if there is one. */
  function LastUnder(items: seq<Item>, tag: string): Option<string> {
    if items == [] then None else
      var later := LastUnder(items[1..], tag);
      if later.Some? then later
      else if items[0].Tagged? && items[0].tag == tag then Some(Join(items[0].text))
      else None
  }

  function Or(later: Option<string>, earlier: Option<string>): Option<string> {
    if later.Some? then later else earlier
  }

  /** Each field is filled by the last block under its own tag, and by no other. */
  lemma {:induction false} ReadBackFields(tags: Tags, items: seq<Item>, a: Artifacts)
    requires Proper(tags) && Written(tags, items)
    ensures ReadBack(tags, items, a) == Artifacts(Or(LastUnder(items, tags.response), a.response),
                                                  Or(LastUnder(items, tags.question), a.question),
                                                  Or(LastUnder(items, tags.evidence), a.evidence))
  {
    if items != [] {
      WrittenRest(tags, items);
      ReadBackFields(tags, items[1..], ReadItem(tags, items[0], a));
    }
  }

  /** Round trip: whatever tagged blocks are written, in any number and order, with prose before
      them and, after blank lines, between them, the scan returns for each tag the text of the
      last block under it, and nothing for a tag without a block. */
  lemma ArtifactsRoundTrip(items: seq<Item>)
    requires Written(TAGS, items)
    ensures var a := ScanFrom(TAGS, Render(items), 0, Artifacts(None, None, None));
            && a.response == LastUnder(items, "RECORDED RESPONSE:")
            && a.question == LastUnder(items, "KNIGHT QUESTION:")
            && a.evidence == LastUnder(items, "REQUIRED EVIDENCE:")
  {
    RenderedScan(TAGS, items, Artifacts(None, None, None));
    ReadBackFields(TAGS, items, Artifacts(None, None, None));
  }

  // ---------- which lines open a tag ----------

  lemma {:induction false} RStripKeeps(s: string, t: string)
    requires t != "" && !IsSpace(t[|t| - 1]) && t <= s
    ensures t <= RStrip(s)
  {
    if IsSpace(s[|s| - 1]) {
      assert |t| < |s|;
      assert t <= s[..|s| - 1];
      RStripKeeps(s[..|s| - 1], t);
    }
  }

  /** Stripping a line loses no occurrence of a text that starts and ends visibly. */
  lemma ContainsStripped(s: string, t: string)
    requires Trimmed(t)
    ensures Contains(Strip(s), t) <==> Contains(s, t)
  {
    var p, q := StripPiece(s);
    var x := Strip(s);
    if Contains(x, t) {
      ContainsWider(p, x, q, t);
    }
    if Contains(s, t) {
      ContainsExactly(s, t);
      var i :| 0 <= i <= |s| && t <= s[i..];
      assert s[i] == s[i..][0] == t[0];
      assert s[i + |t| - 1] == s[i..][|t| - 1] == t[|t| - 1];
      BlankOutside(p, x, q);
      Occurs(p, x, q, t, i);
    }
  }

  lemma BlankOutside(p: string, x: string, q: string)
    requires Blank(p) && Blank(q)
    ensures forall k :: 0 <= k < |p| || |p| + |x| <= k < |p + x + q| ==> IsSpace((p + x + q)[k])
  {
    var s := p + x + q;
    assert forall k :: 0 <= k < |p| ==> s[k] == p[k];
    assert forall k :: |p| + |x| <= k < |s| ==> s[k] == q[k - |p| - |x|];
  }

  lemma Occurs(p: string, x: string, q: string, t: string, i: nat)
    requires |p| <= i && i + |t| <= |p| + |x| && t <= (p + x + q)[i..]
    ensures Contains(x, t)
  {
    var s, j := p + x + q, i - |p|;
    assert forall k :: 0 <= k < |t| ==> t[k] == s[i..][k] == s[i + k] == x[j + k] == x[j..][k];
    assert t <= x[j..];
    ContainsExactly(x, t);
  }

  /** A line opens the recorded response if that tag occurs anywhere in it, and otherwise the
      question or the evidence if it starts, after white space, with their tag. */
  lemma TagOpenedExactly(line: string)
    ensures TagOf(TAGS, line) ==
            if Contains(line, "RECORDED RESPONSE:") then Some("RECORDED RESPONSE:")
            else if "KNIGHT QUESTION:" <= LStrip(line) then Some("KNIGHT QUESTION:")
            else if "REQUIRED EVIDENCE:" <= LStrip(line) then Some("REQUIRED EVIDENCE:")
            else None
  {
    TagOfLine(TAGS, line);
  }

  lemma TagOfLine(tags: Tags, line: string)
    requires Trimmed(tags.response) && Trimmed(tags.question) && Trimmed(tags.evidence)
    ensures TagOf(tags, line) ==
            if Contains(line, tags.response) then Some(tags.response)
            else if tags.question <= LStrip(line) then Some(tags.question)
            else if tags.evidence <= LStrip(line) then Some(tags.evidence)
            else None
  {
    ContainsStripped(line, tags.response);
    StripIsPrefix(line);
    if tags.question <= LStrip(line) {
      RStripKeeps(LStrip(line), tags.question);
    }
    if tags.evidence <= LStrip(line) {
      RStripKeeps(LStrip(line), tags.evidence);
    }
  }

  lemma StripsToNothing(s: string)
    ensures Strip(s) == "" <==> Blank(s)
  {
    InkStrip(s);
    InkBlank(s);
    InkBlank(Strip(s));
    if Blank(s) {
      StripBlank(s);
    }
  }

  /** A block ends exactly at a blank line or at a line that starts, after white space, with one
      of the three tags. */
  lemma BlockEndedExactly(line: string)
    ensures Ends(TAGS, line) <==>
            || Blank(line) || "RECORDED RESPONSE:" <= LStrip(line)
            || "KNIGHT QUESTION:" <= LStrip(line) || "REQUIRED EVIDENCE:" <= LStrip(line)
  {
    StripsToNothing(line);
  }
}
