/**
 * The body renderer of the treatment-summary card (`FormattedContent` and `InlineFormatted`):
 * how one section's content is laid out as a pipe table, as bullet items or as paragraphs,
 * and how `**bold**` spans are cut out of a line.
 */
module SummaryContent {
  import opened Text
  import opened Wrappers
  import opened Collections

  // ---------------------------------------------------------------------------
  // Inline bold spans: `text.split(/(\*\*.*?\*\*)/g)`
  // ---------------------------------------------------------------------------

  /** A piece of rendered text: shown as it is, or inside `<strong>`. */
  datatype Span = Plain(text: String) | Bold(text: String)

  /** A `**` starts at index `i` of `s`. */
  predicate StarsAt(s: String, i: int) {
    0 <= i && i + 1 < |s| && s[i] == '*' && s[i + 1] == '*'
  }

  /**
   * The lazy tail `.*?\*\*` tried at `j`: the end of the first `**` that is reached
   * without crossing a line terminator, which `.` does not match.
   */
  function CloseFrom(s: String, j: nat): (e: Option<nat>)
    requires j <= |s|
    ensures e.Some? ==> j + 2 <= e.value <= |s|
    decreases |s| - j
  {
    if StarsAt(s, j) then Some(j + 2)
    else if j < |s| && !IsLineTerminator(s[j]) then CloseFrom(s, j + 1)
    else None
  }

  /** Where a match of `\*\*.*?\*\*` that starts exactly at `q` ends, if there is one. */
  function MatchAt(s: String, q: nat): (e: Option<nat>)
    requires q <= |s|
    ensures e.Some? ==> q + 4 <= e.value <= |s|
  {
    if StarsAt(s, q) then CloseFrom(s, q + 2) else None
  }

  /**
   * The loop of `String.prototype.split` with a regular expression that has one capture group:
   * `p` is where the current piece began and `q` is where a match is tried next. A match is
   * never empty, so the piece before it and the captured match are pushed and the scan
   * resumes right after the match; at the end the rest of the string is the last piece.
   */
  function SplitFrom(s: String, p: nat, q: nat): seq<String>
    requires p <= q <= |s|
    decreases |s| - q
  {
    if q == |s| then [s[p..]]
    else match MatchAt(s, q)
      case None => SplitFrom(s, p, q + 1)
      case Some(e) => [s[p..q], s[q..e]] + SplitFrom(s, e, e)
  }

  /** `text.split(/(\*\*.*?\*\*)/g)`. */
  function BoldParts(text: String): seq<String> {
    SplitFrom(text, 0, 0)
  }

  /** `s.slice(from, to)`: a negative position counts from the end, and positions are clamped to the string. */
  function Slice(s: String, from: int, to: int): String {
    var lo := if from < 0 then (if |s| + from < 0 then 0 else |s| + from) else (if from < |s| then from else |s|);
    var hi := if to < 0 then (if |s| + to < 0 then 0 else |s| + to) else (if to < |s| then to else |s|);
    if lo < hi then s[lo..hi] else []
  }

  /** How `InlineFormatted` shows one part: a part that starts and ends with `**` loses two characters at each end. */
  function ShowPart(part: String): Span {
    if StartsWith(part, "**") && EndsWith(part, "**") then Bold(Slice(part, 2, -2)) else Plain(part)
  }

  /** `InlineFormatted`: every part of the split, shown plain or bold. */
  function Inline(text: String): seq<Span> {
    Map(BoldParts(text), ShowPart)
  }

  /** The parts written one after another. */
  function Concat(parts: seq<String>): String {
    if parts == [] then [] else parts[0] + Concat(parts[1..])
  }

  /** `**…**` with no line terminator inside: what the pattern could match if it were not lazy. */
  predicate BoldShape(t: String) {
    |t| >= 4 && StarsAt(t, 0) && StarsAt(t, |t| - 2)
    && forall i :: 2 <= i < |t| - 2 ==> !IsLineTerminator(t[i])
  }

  /** What the lazy pattern matches: a `BoldShape` closed by the first `**` after the opening one. */
  predicate LazyBold(t: String) {
    BoldShape(t) && forall i :: 2 <= i < |t| - 2 ==> !StarsAt(t, i)
  }

  /** No `**…**` on one line lies anywhere inside `t`. */
  predicate NoBoldShape(t: String) {
    forall a, b :: 0 <= a <= b <= |t| ==> !BoldShape(t[a..b])
  }

  /** Plain text free of bold shapes, then a lazily matched bold span, and so on, ending with plain text. */
  predicate Alternates(parts: seq<String>) {
    |parts| % 2 == 1
    && (forall k :: 0 <= k < |parts| && k % 2 == 0 ==> NoBoldShape(parts[k]))
    && (forall k :: 0 <= k < |parts| && k % 2 == 1 ==> LazyBold(parts[k]))
  }

  lemma {:induction false} ConcatTwo(a: String, b: String, rest: seq<String>)
    ensures Concat([a, b] + rest) == a + (b + Concat(rest))
  {
    assert ([a, b] + rest)[1..] == [b] + rest;
    assert ([b] + rest)[1..] == rest;
  }

  /** The split from `p` loses nothing. */
  lemma {:induction false} SplitFromLossless(s: String, p: nat, q: nat)
    requires p <= q <= |s|
    ensures Concat(SplitFrom(s, p, q)) == s[p..]
    decreases |s| - q
  {
    if q == |s| {
      assert Concat([s[p..]]) == s[p..] + Concat([]);
    } else {
      match MatchAt(s, q)
      case None =>
        SplitFromLossless(s, p, q + 1);
      case Some(e) =>
        SplitFromLossless(s, e, e);
        ConcatTwo(s[p..q], s[q..e], SplitFrom(s, e, e));
        assert s[p..] == s[p..q] + (s[q..e] + s[e..]);
    }
  }

  /** Writing the parts of the split one after another gives back the text. */
  lemma {:induction false} InlineLossless(text: String)
    ensures Concat(BoldParts(text)) == text
  {
    SplitFromLossless(text, 0, 0);
  }

  /** What the lazy tail finds is a `**` with no line terminator and no earlier `**` before it. */
  lemma {:induction false} CloseFromSound(s: String, j: nat, e: nat)
    requires j <= |s| && CloseFrom(s, j) == Some(e)
    ensures StarsAt(s, e - 2)
    ensures forall i :: j <= i < e - 2 ==> !IsLineTerminator(s[i]) && !StarsAt(s, i)
    decreases |s| - j
  {
    if !StarsAt(s, j) {
      CloseFromSound(s, j + 1, e);
    }
  }

  /** The lazy tail finds a close whenever a `**` is reachable on the same line. */
  lemma {:induction false} CloseFromComplete(s: String, j: nat, k: nat)
    requires j <= k && StarsAt(s, k)
    requires forall i :: j <= i < k ==> !IsLineTerminator(s[i])
    ensures CloseFrom(s, j).Some?
    decreases k - j
  {
    if !StarsAt(s, j) {
      CloseFromComplete(s, j + 1, k);
    }
  }

  /** A match is a lazily closed bold span. */
  lemma {:induction false} MatchIsLazyBold(s: String, q: nat, e: nat)
    requires q <= |s| && MatchAt(s, q) == Some(e)
    ensures LazyBold(s[q..e])
  {
    CloseFromSound(s, q + 2, e);
    var t := s[q..e];
    assert StarsAt(s, q);
    forall i | 2 <= i < |t| - 2 ensures !IsLineTerminator(t[i]) && !StarsAt(t, i) {
      assert t[i] == s[q + i] && t[i + 1] == s[q + i + 1];
    }
    assert t[|t| - 2] == s[e - 2] && t[|t| - 1] == s[e - 1];
  }

  /** A bold shape starting at `a` means a match starts at `a`. */
  lemma {:induction false} ShapeGivesMatch(s: String, a: nat, b: nat)
    requires a <= b <= |s|
    ensures BoldShape(s[a..b]) ==> MatchAt(s, a).Some?
  {
    if BoldShape(s[a..b]) {
      var t := s[a..b];
      assert t[0] == s[a] && t[1] == s[a + 1];
      assert t[|t| - 2] == s[b - 2] && t[|t| - 1] == s[b - 1];
      forall i | a + 2 <= i < b - 2 ensures !IsLineTerminator(s[i]) {
        assert t[i - a] == s[i];
      }
      CloseFromComplete(s, a + 2, b - 2);
    }
  }

  /** Where no match starts, no bold shape lies. */
  lemma {:induction false} NoMatchNoShape(s: String, p: nat, q: nat)
    requires p <= q <= |s|
    requires forall x :: p <= x < q ==> MatchAt(s, x).None?
    ensures NoBoldShape(s[p..q])
  {
    forall a, b | 0 <= a <= b <= q - p ensures !BoldShape(s[p..q][a..b]) {
      SliceOfSlice(s, p, q, a, b);
      ShapeGivesMatch(s, p + a, p + b);
    }
  }

  lemma {:induction false} AlternatesCons(a: String, b: String, rest: seq<String>)
    requires NoBoldShape(a) && LazyBold(b) && Alternates(rest)
    ensures Alternates([a, b] + rest)
  {
    var parts := [a, b] + rest;
    forall k | 2 <= k < |parts| ensures parts[k] == rest[k - 2] {
    }
  }

  /** From a point where no match started since `p`, the parts alternate. */
  lemma {:induction false} SplitFromAlternates(s: String, p: nat, q: nat)
    requires p <= q <= |s|
    requires forall x :: p <= x < q ==> MatchAt(s, x).None?
    ensures Alternates(SplitFrom(s, p, q))
    decreases |s| - q
  {
    if q == |s| {
      NoMatchNoShape(s, p, q);
      assert s[p..q] == s[p..];
    } else {
      match MatchAt(s, q)
      case None =>
        SplitFromAlternates(s, p, q + 1);
      case Some(e) =>
        SplitFromAlternates(s, e, e);
        NoMatchNoShape(s, p, q);
        MatchIsLazyBold(s, q, e);
        AlternatesCons(s[p..q], s[q..e], SplitFrom(s, e, e));
    }
  }

  /**
   * The split finds every bold span: the parts alternate between plain text that holds no
   * `**…**` on one line and spans closed at their first `**`, and there is one more plain part.
   */
  lemma {:induction false} InlineAlternates(text: String)
    ensures Alternates(BoldParts(text))
  {
    SplitFromAlternates(text, 0, 0);
  }

  /** A matched span is shown bold with exactly its two leading and two trailing stars removed. */
  lemma {:induction false} BoldPartShown(part: String)
    requires LazyBold(part)
    ensures ShowPart(part).Bold?
    ensures "**" + ShowPart(part).text + "**" == part
  {
    assert part[..2] == "**";
    assert part[|part| - 2..] == "**";
    Infix(part, 2, 2);
  }

  /**
   * A plain part is shown bold only when it is `**` or `***` (shown as an empty bold span)
   * or when a line terminator kept the pattern from matching across it.
   */
  lemma {:induction false} PlainPartShown(part: String)
    requires NoBoldShape(part)
    ensures ShowPart(part).Bold? ==>
      part == "**" || part == "***" || exists i :: 2 <= i < |part| - 2 && IsLineTerminator(part[i])
  {
    assert part[0..|part|] == part;
    if ShowPart(part).Bold? && |part| < 4 {
      assert part[..2] == "**" && part[|part| - 2..] == "**";
      assert part[0] == '*' && part[|part| - 1] == '*';
    }
  }

  /** Every odd part of the rendered line is bold, and putting its stars back gives the matched text. */
  lemma {:induction false} InlineSpans(text: String)
    ensures |Inline(text)| == |BoldParts(text)| && |Inline(text)| % 2 == 1
    ensures forall k :: 0 <= k < |BoldParts(text)| && k % 2 == 1 ==>
      Inline(text)[k].Bold? && "**" + Inline(text)[k].text + "**" == BoldParts(text)[k]
  {
    InlineAlternates(text);
    var parts := BoldParts(text);
    forall k | 0 <= k < |parts| && k % 2 == 1
      ensures Inline(text)[k].Bold? && "**" + Inline(text)[k].text + "**" == parts[k]
    {
      BoldPartShown(parts[k]);
    }
  }

  /** Text without a `*` is shown as one plain span. */
  lemma {:induction false} NoStarsPlain(text: String)
    requires '*' !in text
    ensures Inline(text) == [Plain(text)]
  {
    NoStarsFrom(text, 0);
    assert text[0..] == text;
    if |text| >= 2 {
      assert text[0] in text;
    }
  }

  lemma {:induction false} NoStarsFrom(s: String, q: nat)
    requires q <= |s| && '*' !in s
    ensures SplitFrom(s, 0, q) == [s[0..]]
    decreases |s| - q
  {
    if q < |s| {
      assert s[q] in s;
      NoStarsFrom(s, q + 1);
    }
  }

  // ---------------------------------------------------------------------------
  // FormattedContent: table, bullets or paragraphs
  // ---------------------------------------------------------------------------

  /** One line outside a table: a bullet item or a paragraph, both already split into spans. */
  datatype Block = Bullet(item: seq<Span>) | Paragraph(line: seq<Span>)

  /**
   * What `FormattedContent` draws: a table whose header cells are shown as they are and
   * whose body cells are inline-formatted, or one block per line.
   */
  datatype Rendering = Table(header: seq<String>, body: seq<seq<seq<Span>>>) | Blocks(blocks: seq<Block>)

  /** `l.trim()` is truthy. */
  predicate NotBlank(l: String) {
    Trim(l) != []
  }

  /** `content.trim().split('\n').filter(l => l.trim())`: the raw lines that are not blank. */
  function ContentLines(content: String): seq<String> {
    Filter(Split(Trim(content), '\n'), NotBlank)
  }

  /** `l.includes('|')`. */
  predicate HasPipe(l: String) {
    Contains(l, "|")
  }

  /** `l.includes('|') && l.split('|').length >= 3`: the test that switches to table mode. */
  predicate IsTableLine(l: String) {
    HasPipe(l) && |Split(l, '|')| >= 3
  }

  /** `/^-+$/`: a markdown separator cell. */
  predicate IsDashRun(c: String) {
    |c| > 0 && forall i :: 0 <= i < |c| ==> c[i] == '-'
  }

  /** `cell && !cell.match(/^-+$/)`. */
  predicate KeepCell(c: String) {
    c != [] && !IsDashRun(c)
  }

  /** `l.split('|').map(cell => cell.trim()).filter(cell => cell && !cell.match(/^-+$/))`. */
  function Cells(l: String): seq<String> {
    Filter(Map(Split(l, '|'), Trim), KeepCell)
  }

  /** `r.length > 0`. */
  predicate NonEmptyRow(r: seq<String>) {
    |r| > 0
  }

  /** The `rows` of the table branch: the cells of every line holding a `|`, rows left empty dropped. */
  function TableRows(lines: seq<String>): seq<seq<String>> {
    Filter(Map(Filter(lines, HasPipe), Cells), NonEmptyRow)
  }

  /** `r.every(c => c.match(/^-+$/))`. */
  predicate AllDashes(r: seq<String>) {
    forall i :: 0 <= i < |r| ==> IsDashRun(r[i])
  }

  predicate NotAllDashes(r: seq<String>) {
    !AllDashes(r)
  }

  /** `lines.some(...)`: at least one line passes the table test. */
  predicate AnyTableLine(lines: seq<String>) {
    exists k :: 0 <= k < |lines| && IsTableLine(lines[k])
  }

  /** `trimmed.startsWith('- ') || trimmed.startsWith('• ') || trimmed.match(/^[\*\-]\s/)`. */
  predicate IsBulletLine(t: String) {
    StartsWith(t, "- ") || StartsWith(t, "• ") || (|t| >= 2 && (t[0] == '*' || t[0] == '-') && IsSpace(t[1]))
  }

  /** `t.replace(/^[\-\•\*]\s*\/, '')`: one leading marker and the white space after it removed. */
  function StripMarker(t: String): String {
    if |t| > 0 && (t[0] == '-' || t[0] == '•' || t[0] == '*') then TrimStart(t[1..]) else t
  }

  /** One line in per-line mode: the trimmed line as a bullet item or as a paragraph. */
  function LineBlock(line: String): Block {
    var t := Trim(line);
    if IsBulletLine(t) then Bullet(Inline(StripMarker(t))) else Paragraph(Inline(t))
  }

  function InlineRow(row: seq<String>): seq<seq<Span>> {
    Map(row, Inline)
  }

  /** `FormattedContent`: a table when a line passes the table test and at least two rows survive, else one block per line. */
  function FormatContent(content: String): Rendering {
    var lines := ContentLines(content);
    var rows := TableRows(lines);
    if AnyTableLine(lines) && |rows| > 1 then
      Table(rows[0], Map(Filter(rows[1..], NotAllDashes), InlineRow))
    else
      Blocks(Map(lines, LineBlock))
  }

  // ---------------------------------------------------------------------------
  // Properties of the layout
  // ---------------------------------------------------------------------------

  /** The lines considered are exactly the non-blank lines of the trimmed content, in order. */
  lemma {:induction false} ContentLinesMembers(content: String)
    ensures forall l :: l in ContentLines(content) <==> l in Split(Trim(content), '\n') && Trim(l) != []
    ensures forall l :: multiset(ContentLines(content))[l] == (if Trim(l) != [] then multiset(Split(Trim(content), '\n'))[l] else 0)
    ensures IsSubsequence(ContentLines(content), Split(Trim(content), '\n'))
  {
    var raw := Split(Trim(content), '\n');
    forall l ensures l in ContentLines(content) <==> l in raw && Trim(l) != [] {
      FilterMember(raw, NotBlank, l);
    }
    forall l ensures multiset(ContentLines(content))[l] == if Trim(l) != [] then multiset(raw)[l] else 0 {
      FilterCounts(raw, NotBlank, l);
    }
    FilterIsSubsequence(raw, NotBlank);
  }

  /** A line switches to table mode exactly when it holds at least two `|`. */
  lemma {:induction false} TableLineIff(l: String)
    ensures IsTableLine(l) <==> multiset(l)['|'] >= 2
  {
    SplitCount(l, '|');
    ContainsChar(l, '|');
  }

  /** Cells are trimmed, non-empty and not dash runs, and every piece of the line that trims to such a cell is kept. */
  lemma {:induction false} CellsClean(l: String)
    ensures forall c :: c in Cells(l) ==> c != [] && Trim(c) == c && !IsDashRun(c)
    ensures forall k :: 0 <= k < |Split(l, '|')| && KeepCell(Trim(Split(l, '|')[k])) ==> Trim(Split(l, '|')[k]) in Cells(l)
  {
    var pieces := Split(l, '|');
    var trimmed := Map(pieces, Trim);
    forall c | c in Cells(l) ensures c != [] && Trim(c) == c && !IsDashRun(c) {
      FilterMember(trimmed, KeepCell, c);
      var i :| 0 <= i < |trimmed| && trimmed[i] == c;
      TrimFixed(c);
    }
    forall k | 0 <= k < |pieces| && KeepCell(Trim(pieces[k])) ensures Trim(pieces[k]) in Cells(l) {
      FilterMember(trimmed, KeepCell, trimmed[k]);
    }
  }

  /** Rows come only from lines holding a `|`, and every such line whose cells are not all dropped gives a row. */
  /** Some cell of the line survives the cell filter. */
  predicate KeepsCells(l: String) {
    Cells(l) != []
  }

  /** A line that gives a table row: it holds a `|` and keeps at least one cell. */
  predicate RowLine(l: String) {
    HasPipe(l) && KeepsCells(l)
  }

  /** The rows are the cells of the row lines, one row per line, in order and with repeats. */
  lemma {:induction false} TableRowsInOrder(lines: seq<String>)
    ensures TableRows(lines) == Map(Filter(lines, RowLine), Cells)
  {
    var piped := Filter(lines, HasPipe);
    forall l ensures KeepsCells(l) == NonEmptyRow(Cells(l)) {
    }
    FilterMap(piped, Cells, NonEmptyRow, KeepsCells);
    forall l ensures RowLine(l) == (HasPipe(l) && KeepsCells(l)) {
    }
    FilterFilter(lines, HasPipe, KeepsCells, RowLine);
  }

  lemma {:induction false} TableRowsFrom(lines: seq<String>)
    ensures forall r :: r in TableRows(lines) ==> r != [] && exists l :: l in lines && '|' in l && r == Cells(l)
    ensures forall l :: l in lines && '|' in l && Cells(l) != [] ==> Cells(l) in TableRows(lines)
  {
    var piped := Filter(lines, HasPipe);
    var mapped := Map(piped, Cells);
    forall r | r in TableRows(lines) ensures r != [] && exists l :: l in lines && '|' in l && r == Cells(l) {
      FilterMember(mapped, NonEmptyRow, r);
      var i :| 0 <= i < |mapped| && mapped[i] == r;
      var l := piped[i];
      FilterMember(lines, HasPipe, l);
      ContainsChar(l, '|');
    }
    forall l | l in lines && '|' in l && Cells(l) != [] ensures Cells(l) in TableRows(lines) {
      ContainsChar(l, '|');
      FilterMember(lines, HasPipe, l);
      var i :| 0 <= i < |piped| && piped[i] == l;
      assert mapped[i] == Cells(l);
      FilterMember(mapped, NonEmptyRow, Cells(l));
    }
  }

  /** The body's filter on all-dash rows (line 93) never drops a row: cleaning the cells already removed every dash run. */
  lemma {:induction false} DashRowFilterNoOp(lines: seq<String>)
    requires |TableRows(lines)| >= 1
    ensures Filter(TableRows(lines)[1..], NotAllDashes) == TableRows(lines)[1..]
  {
    var rows := TableRows(lines);
    TableRowsFrom(lines);
    forall i | 0 <= i < |rows[1..]| ensures NotAllDashes(rows[1..][i]) {
      var r := rows[i + 1];
      assert r in rows;
      var l :| l in lines && '|' in l && r == Cells(l);
      CellsClean(l);
      assert r[0] in Cells(l);
    }
    FilterKeepsAll(rows[1..], NotAllDashes);
  }

  /** Some line passes the table test exactly when some line holds at least two `|`. */
  lemma {:induction false} AnyTableLineIff(lines: seq<String>)
    ensures AnyTableLine(lines) <==> exists l :: l in lines && multiset(l)['|'] >= 2
  {
    if AnyTableLine(lines) {
      var k :| 0 <= k < |lines| && IsTableLine(lines[k]);
      TableLineIff(lines[k]);
    }
    if exists l :: l in lines && multiset(l)['|'] >= 2 {
      var l :| l in lines && multiset(l)['|'] >= 2;
      var k :| 0 <= k < |lines| && lines[k] == l;
      TableLineIff(l);
    }
  }

  /** Table mode needs a line with two `|` and at least two surviving rows; anything else falls back to per-line mode. */
  lemma {:induction false} FormatTableIff(content: String)
    ensures FormatContent(content).Table? <==>
      (exists l :: l in ContentLines(content) && multiset(l)['|'] >= 2) && |TableRows(ContentLines(content))| >= 2
  {
    var lines := ContentLines(content);
    assert FormatContent(content).Table? <==> AnyTableLine(lines) && |TableRows(lines)| > 1;
    AnyTableLineIff(lines);
  }

  /** The header is the first row, shown as it is; every later row appears in the body, in order and inline formatted. */
  lemma {:induction false} FormatTableRows(content: String)
    requires FormatContent(content).Table?
    ensures FormatContent(content).header == TableRows(ContentLines(content))[0]
    ensures |FormatContent(content).body| == |TableRows(ContentLines(content))| - 1
    ensures forall i :: 0 <= i < |FormatContent(content).body| ==>
      FormatContent(content).body[i] == InlineRow(TableRows(ContentLines(content))[i + 1])
  {
    DashRowFilterNoOp(ContentLines(content));
  }

  /** In per-line mode every non-blank line becomes exactly one block, in order. */
  lemma {:induction false} FormatBlocks(content: String)
    requires FormatContent(content).Blocks?
    ensures |FormatContent(content).blocks| == |ContentLines(content)|
    ensures forall i :: 0 <= i < |ContentLines(content)| ==>
      FormatContent(content).blocks[i] == LineBlock(ContentLines(content)[i])
  {
  }

  /** The header cells are clean: non-empty, trimmed and not dash runs. */
  lemma {:induction false} TableHeaderClean(content: String)
    requires FormatContent(content).Table?
    ensures forall c :: c in FormatContent(content).header ==> c != [] && Trim(c) == c && !IsDashRun(c)
  {
    var rows := TableRows(ContentLines(content));
    TableRowsFrom(ContentLines(content));
    assert rows[0] in rows;
    var l :| l in ContentLines(content) && '|' in l && rows[0] == Cells(l);
    CellsClean(l);
  }

  /** `- `, `* ` and the like are bullets whatever white space follows the marker; `•` needs a plain space. */
  lemma {:induction false} BulletIff(t: String)
    ensures IsBulletLine(t) <==>
      |t| >= 2 && (((t[0] == '-' || t[0] == '*') && IsSpace(t[1])) || (t[0] == '•' && t[1] == ' '))
  {
    if |t| >= 2 {
      assert StartsWith(t, "- ") <==> t[0] == '-' && t[1] == ' ';
      assert StartsWith(t, "• ") <==> t[0] == '•' && t[1] == ' ';
      assert IsSpace(' ');
    }
  }

  /** A bullet item is the trimmed line with its marker and the white space after it removed. */
  lemma {:induction false} BulletStripped(t: String)
    requires IsBulletLine(t)
    ensures |t| >= 2 && (t[0] == '-' || t[0] == '•' || t[0] == '*')
    ensures t == [t[0]] + t[1..|t| - |StripMarker(t)|] + StripMarker(t)
    ensures IsBlank(t[1..|t| - |StripMarker(t)|])
    ensures StripMarker(t) == [] || !IsSpace(StripMarker(t)[0])
  {
    BulletIff(t);
    var r := TrimStart(t[1..]);
    assert StripMarker(t) == r;
    var k := |t| - 1 - |r|;
    assert r == t[1..][k..] && IsBlank(t[1..][..k]);
    SliceOfSuffix(t, 1, k);
    assert t == [t[0]] + t[1..][..k] + t[1..][k..];
  }

  /** Text opening with `**` is not a bullet line. */
  lemma {:induction false} BoldOpeningNotBullet(t: String)
    requires StartsWith(t, "**")
    ensures !IsBulletLine(t)
  {
    assert t[..2] == "**";
    assert t[0] == t[..2][0] == '*' && t[1] == t[..2][1] == '*';
    VisibleNotSpace('*');
    assert !StartsWith(t, "- ") && !StartsWith(t, "• ");
  }

  /** A line whose trimmed text opens with `**` is a paragraph, never a bullet. */
  lemma {:induction false} BoldLineIsParagraph(line: String)
    requires StartsWith(Trim(line), "**")
    ensures LineBlock(line) == Paragraph(Inline(Trim(line)))
  {
    BoldOpeningNotBullet(Trim(line));
  }

  /** Empty content draws nothing. */
  lemma {:induction false} EmptyContent()
    ensures FormatContent([]) == Blocks([])
  {
    assert TrimStart([]) == [];
    assert Trim([]) == [];
    assert Split([], '\n') == [[]];
    assert !NotBlank([]);
    assert ContentLines([]) == [];
  }
}
