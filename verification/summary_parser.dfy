/**
 * `parseSummary` of the treatment-summary card: the AI-generated treatment
 * summary is cut into sections at bold header lines (`**Title**` or
 * `1. **Title**`, with an optional colon), each section classified by
 * `getIcon`. Text before the first header opens a synthetic section titled
 * "विश्लेषण". The `INTRO_SECTION:` and `---SECTION_BREAK---` markers the
 * generator emits are ordinary lines here, exactly as in the component.
 */
module SummaryParser {
  import opened Text
  import opened Wrappers

  /** The five icon keys a section can carry. */
  datatype Icon = Shield | Beaker | Pill | Clipboard | Heart

  datatype Section = Section(title: String, content: String, icon: Icon)

  /** The title of the section opened by text that precedes every header. */
  const AnalysisTitle: String := "विश्लेषण"

  // ---------------------------------------------------------------------------
  // getIcon
  // ---------------------------------------------------------------------------

  const ShieldKeywords: seq<String> := ["अवस्था", "classification", "positive", "negative"]
  const BeakerKeywords: seq<String> := ["सारांश", "उपचार", "treatment"]
  const PillKeywords: seq<String> := ["मिश्रण", "खुराक", "dosage", "तालिका"]
  const HeartKeywords: seq<String> := ["निर्देश", "सलाह", "instruction"]

  /** Some keyword of the list occurs in `lower`. */
  predicate MentionsAny(lower: String, keywords: seq<String>) {
    exists k :: 0 <= k < |keywords| && Contains(lower, keywords[k])
  }

  /** `getIcon`: the lower-cased title is tested against the keyword groups in a fixed order. */
  function GetIcon(title: String): Icon {
    var lower := Lower(title);
    if Contains(lower, "अवस्था") || Contains(lower, "classification") || Contains(lower, "positive") || Contains(lower, "negative") then Shield
    else if Contains(lower, "सारांश") || Contains(lower, "उपचार") || Contains(lower, "treatment") then Beaker
    else if Contains(lower, "मिश्रण") || Contains(lower, "खुराक") || Contains(lower, "dosage") || Contains(lower, "तालिका") then Pill
    else if Contains(lower, "निर्देश") || Contains(lower, "सलाह") || Contains(lower, "instruction") then Heart
    else Clipboard
  }

  /** The priority table: the groups in the order `getIcon` tests them. */
  const IconRules: seq<(Icon, seq<String>)> :=
    [(Shield, ShieldKeywords), (Beaker, BeakerKeywords), (Pill, PillKeywords), (Heart, HeartKeywords)]

  /** The icon of the first rule some of whose keywords occur in `lower`, else `Clipboard`. */
  function FirstMatch(rules: seq<(Icon, seq<String>)>, lower: String): (icon: Icon)
    ensures icon == Clipboard || exists k :: 0 <= k < |rules| && rules[k].0 == icon && MentionsAny(lower, rules[k].1)
  {
    if rules == [] then Clipboard
    else if MentionsAny(lower, rules[0].1) then rules[0].0
    else
      var icon := FirstMatch(rules[1..], lower);
      assert icon != Clipboard ==> exists k :: 1 <= k < |rules| && rules[k].0 == icon && MentionsAny(lower, rules[k].1) by {
        if icon != Clipboard {
          var k :| 0 <= k < |rules[1..]| && rules[1..][k].0 == icon && MentionsAny(lower, rules[1..][k].1);
          assert rules[k + 1] == rules[1..][k];
        }
      }
      icon
  }

  lemma {:induction false} MentionsAnyUnrolled(lower: String, keywords: seq<String>)
    ensures |keywords| == 3 ==> (MentionsAny(lower, keywords) <==>
      Contains(lower, keywords[0]) || Contains(lower, keywords[1]) || Contains(lower, keywords[2]))
    ensures |keywords| == 4 ==> (MentionsAny(lower, keywords) <==>
      Contains(lower, keywords[0]) || Contains(lower, keywords[1]) || Contains(lower, keywords[2]) || Contains(lower, keywords[3]))
  {
  }

  /** `getIcon` is the first-match rule over the priority table: shield beats beaker, beaker beats pill, pill beats heart. */
  lemma {:induction false} GetIconIsFirstMatch(title: String)
    ensures GetIcon(title) == FirstMatch(IconRules, Lower(title))
  {
    var lower := Lower(title);
    MentionsAnyUnrolled(lower, ShieldKeywords);
    MentionsAnyUnrolled(lower, BeakerKeywords);
    MentionsAnyUnrolled(lower, PillKeywords);
    MentionsAnyUnrolled(lower, HeartKeywords);
    var r1 := IconRules[1..];
    var r2 := r1[1..];
    var r3 := r2[1..];
    assert r1 == [(Beaker, BeakerKeywords), (Pill, PillKeywords), (Heart, HeartKeywords)];
    assert r2 == [(Pill, PillKeywords), (Heart, HeartKeywords)];
    assert r3 == [(Heart, HeartKeywords)] && r3[1..] == [];
    assert FirstMatch(r3, lower) == if MentionsAny(lower, HeartKeywords) then Heart else Clipboard;
    assert FirstMatch(r2, lower) == if MentionsAny(lower, PillKeywords) then Pill else FirstMatch(r3, lower);
    assert FirstMatch(r1, lower) == if MentionsAny(lower, BeakerKeywords) then Beaker else FirstMatch(r2, lower);
    assert FirstMatch(IconRules, lower) == if MentionsAny(lower, ShieldKeywords) then Shield else FirstMatch(r1, lower);
  }

  /** The outcome of `getIcon` spelled out group by group, lower groups only counting when every higher one is absent. */
  lemma {:induction false} GetIconPriority(title: String)
    ensures var lower := Lower(title);
      (GetIcon(title) == Shield <==> MentionsAny(lower, ShieldKeywords)) &&
      (GetIcon(title) == Beaker <==> !MentionsAny(lower, ShieldKeywords) && MentionsAny(lower, BeakerKeywords)) &&
      (GetIcon(title) == Pill <==> !MentionsAny(lower, ShieldKeywords) && !MentionsAny(lower, BeakerKeywords)
                                   && MentionsAny(lower, PillKeywords)) &&
      (GetIcon(title) == Heart <==> !MentionsAny(lower, ShieldKeywords) && !MentionsAny(lower, BeakerKeywords)
                                    && !MentionsAny(lower, PillKeywords) && MentionsAny(lower, HeartKeywords)) &&
      (GetIcon(title) == Clipboard <==> !MentionsAny(lower, ShieldKeywords) && !MentionsAny(lower, BeakerKeywords)
                                        && !MentionsAny(lower, PillKeywords) && !MentionsAny(lower, HeartKeywords))
  {
    var lower := Lower(title);
    MentionsAnyUnrolled(lower, ShieldKeywords);
    MentionsAnyUnrolled(lower, BeakerKeywords);
    MentionsAnyUnrolled(lower, PillKeywords);
    MentionsAnyUnrolled(lower, HeartKeywords);
  }

  /** Lower-casing a title first does not change its icon: the keywords are all lower case. */
  lemma {:induction false} GetIconCaseInsensitive(title: String)
    ensures GetIcon(Lower(title)) == GetIcon(title)
  {
    LowerIdempotent(title);
  }

  // ---------------------------------------------------------------------------
  // Header lines: /^\*\*(.+?)\*\*:?\s*$/ and /^\d+\.\s*\*\*(.+?)\*\*:?\s*$/
  // ---------------------------------------------------------------------------

  predicate NoLineTerminator(s: String) {
    forall i :: 0 <= i < |s| ==> !IsLineTerminator(s[i])
  }

  /** What `:?\s*$` accepts after the closing `**`. */
  predicate IsHeaderTail(rest: String) {
    IsBlank(rest) || (|rest| > 0 && rest[0] == ':' && IsBlank(rest[1..]))
  }

  /** `line` is `**x**` followed by a header tail, `x` being what `(.+?)` captures. */
  predicate IsBoldShape(line: String, x: String, rest: String) {
    line == "**" + x + "**" + rest && |x| >= 1 && NoLineTerminator(x) && IsHeaderTail(rest)
  }

  /** `line` is `n` digits, a dot, `w` white-space characters, then a bold header shape. */
  predicate IsNumberedShape(line: String, n: nat, w: nat, x: String, rest: String) {
    1 <= n && n + 1 + w <= |line| && AllDigits(line[..n]) && line[n] == '.'
    && IsBlank(line[n + 1..n + 1 + w]) && IsBoldShape(line[n + 1 + w..], x, rest)
  }

  /** The line less what `:?\s*$` matches at its end. */
  function HeaderBody(line: String): String {
    var t := TrimEnd(line);
    if |t| > 0 && t[|t| - 1] == ':' then t[..|t| - 1] else t
  }

  /** The capture group of the plain header pattern, computed from the end of the line. */
  function BoldCapture(line: String): Option<String> {
    var u := HeaderBody(line);
    if |u| >= 5 && u[..2] == "**" && u[|u| - 2..] == "**" && NoLineTerminator(u[2..|u| - 2])
    then Some(u[2..|u| - 2])
    else None
  }

  /** The capture group of the numbered header pattern. */
  function NumberedCapture(line: String): Option<String> {
    var n := DigitRun(line);
    if 1 <= n < |line| && line[n] == '.' then BoldCapture(TrimStart(line[n + 1..])) else None
  }

  /** What `HeaderBody` removes is a header tail. */
  lemma {:induction false} HeaderBodyTail(line: String)
    ensures var u := HeaderBody(line); |u| <= |line| && u == line[..|u|] && IsHeaderTail(line[|u|..])
  {
    var t := TrimEnd(line);
    var u := HeaderBody(line);
    if |t| > 0 && t[|t| - 1] == ':' {
      assert line[|u|..][1..] == line[|t|..];
    }
  }

  /** A match of the plain pattern has the plain shape. */
  lemma {:induction false} BoldCaptureSound(line: String)
    requires BoldCapture(line).Some?
    ensures var x := BoldCapture(line).value; IsBoldShape(line, x, line[|x| + 4..])
  {
    var u := HeaderBody(line);
    HeaderBodyTail(line);
    Infix(u, 2, 2);
    SplitAt(line, |u|);
  }

  /** Every line of the plain shape matches, and the capture is the shape's `x`: the capture is unique. */
  lemma {:induction false} BoldCaptureComplete(line: String, x: String, rest: String)
    requires IsBoldShape(line, x, rest)
    ensures BoldCapture(line) == Some(x)
  {
    var a := "**" + x + "**";
    HeaderBodyOf(a, rest);
    assert a[..2] == "**" && a[|a| - 2..] == "**" && a[2..|a| - 2] == x;
  }

  /** `HeaderBody` removes exactly a header tail from a text that ends in `*`. */
  lemma {:induction false} HeaderBodyOf(a: String, rest: String)
    requires |a| > 0 && a[|a| - 1] == '*' && IsHeaderTail(rest)
    ensures HeaderBody(a + rest) == a
  {
    VisibleNotSpace('*');
    if IsBlank(rest) {
      TrimEndBlankSuffix(a, rest);
    } else {
      var b := a + [':'];
      VisibleNotSpace(':');
      assert a + rest == b + rest[1..];
      TrimEndBlankSuffix(b, rest[1..]);
      assert b[..|a|] == a;
    }
  }

  /** The text after the number's dot, less its leading white space, follows `w` white-space characters. */
  lemma {:induction false} NumberedPrefix(line: String, n: nat) returns (w: nat)
    requires n < |line|
    ensures n + 1 + w <= |line| && IsBlank(line[n + 1..n + 1 + w])
    ensures line[n + 1 + w..] == TrimStart(line[n + 1..])
  {
    var tail := line[n + 1..];
    w := |tail| - |TrimStart(tail)|;
    assert IsBlank(line[n + 1..n + 1 + w]) by {
      SliceOfSuffix(line, n + 1, w);
      assert IsBlank(tail[..w]);
    }
    assert line[n + 1 + w..] == TrimStart(tail) by {
      SliceOfSuffix(line, n + 1, w);
    }
  }

  /** A match of the numbered pattern is digits, a dot and white space before a match of the plain pattern. */
  lemma {:induction false} NumberedParts(line: String) returns (n: nat, w: nat, after: String)
    requires NumberedCapture(line).Some?
    ensures 1 <= n && n + 1 + w <= |line| && AllDigits(line[..n]) && line[n] == '.'
    ensures IsBlank(line[n + 1..n + 1 + w]) && after == line[n + 1 + w..]
    ensures NumberedCapture(line) == BoldCapture(after)
  {
    n := DigitRun(line);
    w := NumberedPrefix(line, n);
    after := line[n + 1 + w..];
  }

  /** A match of the numbered pattern has the numbered shape. */
  lemma {:induction false} NumberedCaptureSound(line: String) returns (n: nat, w: nat, x: String, rest: String)
    requires NumberedCapture(line).Some?
    ensures NumberedCapture(line) == Some(x) && IsNumberedShape(line, n, w, x, rest)
  {
    var after;
    n, w, after := NumberedParts(line);
    BoldCaptureSound(after);
    x := BoldCapture(after).value;
    rest := after[|x| + 4..];
  }


  /** Every line of the numbered shape matches with that shape's `x`. */
  lemma {:induction false} NumberedCaptureComplete(line: String, n: nat, w: nat, x: String, rest: String)
    requires IsNumberedShape(line, n, w, x, rest)
    ensures NumberedCapture(line) == Some(x)
  {
    DigitRunAt(line, n);
    var tail := line[n + 1 + w..];
    BoldCaptureComplete(tail, x, rest);
    assert tail[0] == '*';
    VisibleNotSpace('*');
    NumberedTrim(line, n, w);
  }

  /** After the number's dot, `trimStart()` drops exactly the white space before the bold part. */
  lemma {:induction false} NumberedTrim(line: String, n: nat, w: nat)
    requires n + 1 + w < |line| && IsBlank(line[n + 1..n + 1 + w]) && !IsSpace(line[n + 1 + w])
    ensures TrimStart(line[n + 1..]) == line[n + 1 + w..]
  {
    var ws, tail := line[n + 1..n + 1 + w], line[n + 1 + w..];
    SliceOfSuffix(line, n + 1, w);
    SplitAt(line[n + 1..], w);
    TrimStartBlankPrefix(ws, tail);
  }

  /** The title a header line gives its section (`(m1 || m2 || '').trim()`), `None` when the line is no header. */
  function HeaderTitle(line: String): Option<String> {
    match BoldCapture(line)
    case Some(x) => Some(Trim(x))
    case None =>
      match NumberedCapture(line)
      case Some(x) => Some(Trim(x))
      case None => None
  }

  predicate IsHeader(line: String) {
    HeaderTitle(line).Some?
  }

  /** A line of the plain shape is a header whose title is the trimmed capture. */
  lemma {:induction false} BoldShapeIsHeader(line: String, x: String, rest: String)
    requires IsBoldShape(line, x, rest)
    ensures HeaderTitle(line) == Some(Trim(x))
  {
    BoldCaptureComplete(line, x, rest);
  }

  /** Only a line that starts with `**` matches the plain pattern. */
  lemma {:induction false} BoldCaptureStartsWithStars(line: String)
    ensures BoldCapture(line).Some? ==> |line| >= 2 && line[0] == '*'
  {
    if BoldCapture(line).Some? {
      BoldCaptureSound(line);
    }
  }

  /** A line of the numbered shape is a header whose title is the trimmed capture. */
  lemma {:induction false} NumberedShapeIsHeader(line: String, n: nat, w: nat, x: String, rest: String)
    requires IsNumberedShape(line, n, w, x, rest)
    ensures HeaderTitle(line) == Some(Trim(x))
  {
    NumberedCaptureComplete(line, n, w, x, rest);
    BoldCaptureStartsWithStars(line);
    assert IsDigit(line[..n][0]);
  }

  /** Every header line has one of the two shapes, and its title is the trimmed capture. */
  lemma {:induction false} HeaderHasShape(line: String) returns (x: String, n: nat, w: nat, rest: String)
    requires IsHeader(line)
    ensures HeaderTitle(line) == Some(Trim(x))
    ensures IsBoldShape(line, x, rest) || IsNumberedShape(line, n, w, x, rest)
  {
    n, w := 0, 0;
    if BoldCapture(line).Some? {
      x := BoldCapture(line).value;
      rest := line[|x| + 4..];
      BoldCaptureSound(line);
    } else {
      n, w, x, rest := NumberedCaptureSound(line);
    }
  }

  // ---------------------------------------------------------------------------
  // The scan of parseSummary, line by line
  // ---------------------------------------------------------------------------

  /** What a header line contributes: the title and the icon `getIcon` gives it. */
  datatype Header = Header(title: String, icon: Icon)

  /** A line of the summary with the two facts the scan asks of it: its header, if it is one, and whether it is blank. */
  datatype Line = Line(text: String, header: Option<Header>, blank: bool)

  function Classify(text: String): (l: Line)
    ensures l.text == text && (l.blank <==> IsBlank(text))
    ensures l.header.Some? <==> IsHeader(text)
    ensures l.header.Some? ==> l.header.value == Header(HeaderTitle(text).value, GetIcon(HeaderTitle(text).value))
  {
    TrimEmptyIffBlank(text);
    var header := match HeaderTitle(text)
      case Some(title) => Some(Header(title, GetIcon(title)))
      case None => None;
    Line(text, header, Trim(text) == [])
  }

  /** The lines of the summary, `text.split('\n')`, classified. */
  function Lines(text: String): (ls: seq<Line>)
    ensures |ls| == |Split(text, '\n')|
    ensures forall k :: 0 <= k < |ls| ==> ls[k] == Classify(Split(text, '\n')[k])
    ensures Join(Texts(ls), '\n') == text
  {
    var raw := Split(text, '\n');
    var ls := seq(|raw|, k requires 0 <= k < |raw| => Classify(raw[k]));
    TextsPointwise(ls, raw);
    JoinSplit(text, '\n');
    ls
  }

  /** The texts of the lines, in order. */
  function Texts(ls: seq<Line>): seq<String>
    decreases |ls|
  {
    if ls == [] then [] else [ls[0].text] + Texts(ls[1..])
  }

  lemma {:induction false} TextsPointwise(ls: seq<Line>, raw: seq<String>)
    requires |ls| == |raw| && forall k :: 0 <= k < |ls| ==> ls[k].text == raw[k]
    ensures Texts(ls) == raw
  {
    if ls != [] {
      TextsPointwise(ls[1..], raw[1..]);
      assert raw == [raw[0]] + raw[1..];
    }
  }

  /** Lines free of `\n`, joined into a summary, are split back into exactly those lines. */
  lemma {:induction false} LinesOfJoin(parts: seq<String>)
    requires |parts| >= 1 && forall k :: 0 <= k < |parts| ==> '\n' !in parts[k]
    ensures Texts(Lines(Join(parts, '\n'))) == parts
  {
    SplitJoin(parts, '\n');
    TextsPointwise(Lines(Join(parts, '\n')), parts);
  }

  /** `content += (content ? '\n' : '') + line`. */
  function AppendTo(content: String, line: String): String {
    content + (if content != [] then "\n" else []) + line
  }

  /** The section a header line opens: its title, empty content, the title's icon. */
  function Open(header: Header): Section {
    Section(header.title, [], header.icon)
  }

  /** What a non-header line does to the open section. */
  function Step(current: Option<Section>, line: Line): Option<Section> {
    match current
    case Some(s) => Some(s.(content := AppendTo(s.content, line.text)))
    case None => if !line.blank then Some(Section(AnalysisTitle, line.text, Shield)) else None
  }

  /** The open section, emitted when the next header or the end of the text closes it. */
  function Emit(current: Option<Section>): seq<Section> {
    match current
    case Some(s) => [s]
    case None => []
  }

  /** The sections the loop of `parseSummary` emits from line `i` on, `current` being open. */
  function Scan(lines: seq<Line>, i: nat, current: Option<Section>): seq<Section>
    requires i <= |lines|
    decreases |lines| - i
  {
    if i == |lines| then Emit(current)
    else match lines[i].header
      case Some(header) => Emit(current) + Scan(lines, i + 1, Some(Open(header)))
      case None => Scan(lines, i + 1, Step(current, lines[i]))
  }

  /** Every non-blank line has some text, as `Classify` guarantees. */
  predicate Consistent(lines: seq<Line>) {
    forall k :: 0 <= k < |lines| ==> (lines[k].blank || lines[k].text != []) && (lines[k].blank ==> lines[k].header.None?)
  }

  /** A header line starts with a `*` or a digit. */
  lemma {:induction false} HeaderStart(text: String)
    requires IsHeader(text)
    ensures |text| > 0 && (text[0] == '*' || IsDigit(text[0]))
  {
    if BoldCapture(text).Some? {
      BoldCaptureStartsWithStars(text);
    } else {
      var n := DigitRun(text);
      assert IsDigit(text[..n][0]);
    }
  }

  /** A header line is never blank. */
  lemma {:induction false} HeaderNotBlank(text: String)
    ensures IsHeader(text) ==> !IsBlank(text)
  {
    if IsHeader(text) {
      HeaderStart(text);
      VisibleNotSpace(text[0]);
    }
  }

  lemma {:induction false} LinesConsistent(text: String)
    ensures Consistent(Lines(text))
  {
    var raw := Split(text, '\n');
    forall k | 0 <= k < |raw| ensures IsHeader(raw[k]) ==> !IsBlank(raw[k]) {
      HeaderNotBlank(raw[k]);
    }
  }

  /** `parseSummary`: the summary's lines, classified, then scanned. */
  method ParseSummary(text: String) returns (sections: seq<Section>)
    ensures sections == Sections(Lines(text))
  {
    LinesConsistent(text);
    sections := ScanLines(Lines(text));
  }

  /** The loop of `parseSummary`: one pass over the lines with a mutable open section. */
  method ScanLines(lines: seq<Line>) returns (sections: seq<Section>)
    requires Consistent(lines)
    ensures sections == Sections(lines)
  {
    sections := [];
    var current: Option<Section> := None;
    var i := 0;
    while i < |lines|
      invariant 0 <= i <= |lines|
      invariant sections + Scan(lines, i, current) == Scan(lines, 0, None)
    {
      var line := lines[i];
      if line.header.Some? {
        if current.Some? {
          sections := sections + [current.value];
        }
        current := Some(Open(line.header.value));
      } else if current.Some? {
        current := Some(current.value.(content := AppendTo(current.value.content, line.text)));
      } else if !line.blank {
        current := Some(Section(AnalysisTitle, line.text, Shield));
      }
      i := i + 1;
    }
    if current.Some? {
      sections := sections + [current.value];
    }
    ScanIsSections(lines);
  }

  // ---------------------------------------------------------------------------
  // The reference segmentation: one section per header, plus the preamble
  // ---------------------------------------------------------------------------

  /** The first header at or after `i`, or the end. */
  function NextHeader(lines: seq<Line>, i: nat): (j: nat)
    requires i <= |lines|
    ensures i <= j <= |lines|
    ensures forall m :: i <= m < j ==> lines[m].header.None?
    ensures j < |lines| ==> lines[j].header.Some?
    decreases |lines| - i
  {
    if i == |lines| || lines[i].header.Some? then i else NextHeader(lines, i + 1)
  }

  /** The headers of the header lines from `i` on, in order. */
  function HeadersFrom(lines: seq<Line>, i: nat): seq<Header>
    requires i <= |lines|
    decreases |lines| - i
  {
    if i == |lines| then []
    else if lines[i].header.Some? then [lines[i].header.value] + HeadersFrom(lines, i + 1)
    else HeadersFrom(lines, i + 1)
  }

  /** Drops the empty lines before the first non-empty one. */
  function DropLeadingEmpty(lines: seq<String>): seq<String>
    decreases |lines|
  {
    if lines != [] && lines[0] == [] then DropLeadingEmpty(lines[1..]) else lines
  }

  /** What `DropLeadingEmpty` keeps is a suffix that starts with a non-empty line, everything before it being empty. */
  lemma {:induction false} DropLeadingEmptySuffix(lines: seq<String>)
    ensures var r := DropLeadingEmpty(lines);
      |r| <= |lines| && r == lines[|lines| - |r|..]
      && (forall k :: 0 <= k < |lines| - |r| ==> lines[k] == [])
      && (r == [] || r[0] != [])
    decreases |lines|
  {
    if lines != [] && lines[0] == [] {
      DropLeadingEmptySuffix(lines[1..]);
      var r := DropLeadingEmpty(lines[1..]);
      assert lines[1..][|lines| - 1 - |r|..] == lines[|lines| - |r|..];
      forall k | 0 <= k < |lines| - |r| ensures lines[k] == [] {
        if k > 0 {
          assert lines[k] == lines[1..][k - 1];
        }
      }
    }
  }

  /** The texts of `lines[i..j]` joined by newlines. */
  function JoinFrom(lines: seq<Line>, i: nat, j: nat): String
    requires i < j <= |lines|
    decreases j - i
  {
    if i + 1 == j then lines[i].text else lines[i].text + "\n" + JoinFrom(lines, i + 1, j)
  }

  /** A headed section's content: the texts of `lines[i..j]` from the first non-empty one on, joined by newlines. */
  function BodyFrom(lines: seq<Line>, i: nat, j: nat): String
    requires i <= j <= |lines|
    decreases j - i
  {
    if i == j then []
    else if lines[i].text == [] then BodyFrom(lines, i + 1, j)
    else JoinFrom(lines, i, j)
  }

  /** `JoinFrom` is `join('\n')` of the lines' texts. */
  lemma {:induction false} JoinFromIsJoin(lines: seq<Line>, i: nat, j: nat)
    requires i < j <= |lines|
    ensures JoinFrom(lines, i, j) == Join(Texts(lines[i..j]), '\n')
    decreases j - i
  {
    var ts := Texts(lines[i..j]);
    assert lines[i..j][1..] == lines[i + 1..j];
    assert ts == [lines[i].text] + Texts(lines[i + 1..j]);
    if i + 1 < j {
      JoinFromIsJoin(lines, i + 1, j);
      assert ts[1..] == Texts(lines[i + 1..j]);
    }
  }

  /** A headed section's content is its lines, less the empty lines that open it, joined by newlines. */
  lemma {:induction false} BodyFromIsJoin(lines: seq<Line>, i: nat, j: nat)
    requires i <= j <= |lines|
    ensures BodyFrom(lines, i, j) == Join(DropLeadingEmpty(Texts(lines[i..j])), '\n')
    decreases j - i
  {
    if i < j {
      var ts := Texts(lines[i..j]);
      assert lines[i..j][1..] == lines[i + 1..j];
      assert ts == [lines[i].text] + Texts(lines[i + 1..j]);
      if lines[i].text == [] {
        BodyFromIsJoin(lines, i + 1, j);
        assert ts[1..] == Texts(lines[i + 1..j]);
      } else {
        JoinFromIsJoin(lines, i, j);
      }
    }
  }

  /** The section of the header at `h`, its body being the lines up to `end`. */
  function HeadedSection(lines: seq<Line>, h: nat, end: nat): Section
    requires h < end <= |lines| && lines[h].header.Some?
  {
    var header := lines[h].header.value;
    Section(header.title, BodyFrom(lines, h + 1, end), header.icon)
  }

  /** One section per header at or after `i`, each running up to the next header or the end. */
  function SectionsFrom(lines: seq<Line>, i: nat): seq<Section>
    requires i <= |lines|
    decreases |lines| - i
  {
    if i == |lines| then []
    else if lines[i].header.Some? then [HeadedSection(lines, i, NextHeader(lines, i + 1))] + SectionsFrom(lines, i + 1)
    else SectionsFrom(lines, i + 1)
  }

  /** The index of the first non-blank line in `lines[i..end]`, or `end`. */
  function FirstNonBlank(lines: seq<Line>, i: nat, end: nat): (f: nat)
    requires i <= end <= |lines|
    ensures i <= f <= end
    ensures forall j :: i <= j < f ==> lines[j].blank
    ensures f < end ==> !lines[f].blank
    decreases end - i
  {
    if i == end then end
    else if !lines[i].blank then i
    else FirstNonBlank(lines, i + 1, end)
  }

  /** The synthetic section of the text before the first header `end`: from the first non-blank line on. */
  function Preamble(lines: seq<Line>, end: nat): seq<Section>
    requires end <= |lines|
  {
    var f := FirstNonBlank(lines, 0, end);
    if f < end then [Section(AnalysisTitle, JoinFrom(lines, f, end), Shield)] else []
  }

  /** What `parseSummary` returns for the given lines. */
  function Sections(lines: seq<Line>): seq<Section> {
    Preamble(lines, NextHeader(lines, 0)) + SectionsFrom(lines, 0)
  }

  // ---------------------------------------------------------------------------
  // What the reference segmentation promises
  // ---------------------------------------------------------------------------

  /** The title and icon of each section, in order. */
  function Labels(sections: seq<Section>): (labels: seq<Header>)
    ensures |labels| == |sections|
    decreases |sections|
  {
    if sections == [] then [] else [Header(sections[0].title, sections[0].icon)] + Labels(sections[1..])
  }

  /** The headed sections follow the header lines one for one, each with its header's title and icon. */
  lemma {:induction false} SectionsFollowHeaders(lines: seq<Line>, i: nat)
    requires i <= |lines|
    ensures Labels(SectionsFrom(lines, i)) == HeadersFrom(lines, i)
    decreases |lines| - i
  {
    if i < |lines| {
      SectionsFollowHeaders(lines, i + 1);
      if lines[i].header.Some? {
        var ss := SectionsFrom(lines, i + 1);
        var s0 := HeadedSection(lines, i, NextHeader(lines, i + 1));
        assert ([s0] + ss)[1..] == ss;
      }
    }
  }

  /** One section per header, plus the synthetic one exactly when a non-blank line precedes the first header. */
  lemma {:induction false} SectionCount(lines: seq<Line>)
    ensures |Sections(lines)| == |HeadersFrom(lines, 0)| + (if FirstNonBlank(lines, 0, NextHeader(lines, 0)) < NextHeader(lines, 0) then 1 else 0)
  {
    SectionsFollowHeaders(lines, 0);
  }

  /** The text before the first header, if not blank, becomes the first section, titled "विश्लेषण" with the shield icon. */
  lemma {:induction false} PreambleSection(lines: seq<Line>)
    requires FirstNonBlank(lines, 0, NextHeader(lines, 0)) < NextHeader(lines, 0)
    ensures |Sections(lines)| > 0
    ensures Sections(lines)[0].title == AnalysisTitle && Sections(lines)[0].icon == Shield
  {
  }

  /** When the first line that is not blank is a header, every section is a headed one. */
  lemma {:induction false} NoPreamble(lines: seq<Line>)
    requires FirstNonBlank(lines, 0, NextHeader(lines, 0)) == NextHeader(lines, 0)
    ensures Sections(lines) == SectionsFrom(lines, 0)
  {
  }

  /** A summary with no non-blank line has no sections. */
  lemma {:induction false} BlankLinesNoSections(lines: seq<Line>)
    requires Consistent(lines)
    requires forall k :: 0 <= k < |lines| ==> lines[k].blank
    ensures Sections(lines) == []
  {
    assert forall k :: 0 <= k < |lines| ==> lines[k].header.None?;
    assert NextHeader(lines, 0) == |lines|;
    SectionsFromNext(lines, 0, |lines|);
  }

  /** The empty summary has no sections. */
  lemma {:induction false} EmptySummary()
    ensures Sections(Lines("")) == []
  {
    LinesConsistent("");
    assert Split("", '\n') == [""];
    BlankLinesNoSections(Lines(""));
  }

  // ---------------------------------------------------------------------------
  // The scan computes the reference segmentation
  // ---------------------------------------------------------------------------

  /** The open section after the non-header lines `lines[i..j]`. */
  function Run(lines: seq<Line>, i: nat, j: nat, current: Option<Section>): Option<Section>
    requires i <= j <= |lines|
    decreases j - i
  {
    if i == j then current else Run(lines, i + 1, j, Step(current, lines[i]))
  }

  /** Appending the texts of `lines[i..j]` one by one to a content. */
  function GrowFrom(content: String, lines: seq<Line>, i: nat, j: nat): String
    requires i <= j <= |lines|
    decreases j - i
  {
    if i == j then content else GrowFrom(AppendTo(content, lines[i].text), lines, i + 1, j)
  }

  /** Once the content is non-empty every further line is added after a newline. */
  lemma {:induction false} GrowNonEmpty(content: String, lines: seq<Line>, i: nat, j: nat)
    requires content != [] && i <= j <= |lines|
    ensures GrowFrom(content, lines, i, j) == if i == j then content else content + "\n" + JoinFrom(lines, i, j)
    decreases j - i
  {
    if i < j {
      var c := AppendTo(content, lines[i].text);
      GrowNonEmpty(c, lines, i + 1, j);
      if i + 1 < j {
        ConcatAssoc(content + "\n", lines[i].text, "\n", JoinFrom(lines, i + 1, j));
      }
    }
  }

  /** A section opened empty collects its lines' texts from the first non-empty one on, joined by newlines. */
  lemma {:induction false} GrowFromEmpty(lines: seq<Line>, i: nat, j: nat)
    requires i <= j <= |lines|
    ensures GrowFrom([], lines, i, j) == BodyFrom(lines, i, j)
    decreases j - i
  {
    if i < j {
      var t := lines[i].text;
      if t == [] {
        assert AppendTo([], t) == [];
        GrowFromEmpty(lines, i + 1, j);
      } else {
        assert AppendTo([], t) == t;
        GrowNonEmpty(t, lines, i + 1, j);
      }
    }
  }

  /** Non-header lines only extend an open section. */
  lemma {:induction false} RunSome(lines: seq<Line>, i: nat, j: nat, s: Section)
    requires i <= j <= |lines|
    ensures Run(lines, i, j, Some(s)) == Some(s.(content := GrowFrom(s.content, lines, i, j)))
    decreases j - i
  {
    if i < j {
      RunSome(lines, i + 1, j, s.(content := AppendTo(s.content, lines[i].text)));
    }
  }

  /** Before any header, blank lines are skipped and the first non-blank line opens the synthetic section. */
  lemma {:induction false} RunNone(lines: seq<Line>, i: nat, j: nat, f: nat)
    requires i <= j <= |lines| && Consistent(lines) && f == FirstNonBlank(lines, i, j)
    ensures Run(lines, i, j, None) == if f < j then Some(Section(AnalysisTitle, JoinFrom(lines, f, j), Shield)) else None
    decreases j - i
  {
    if i < j {
      if !lines[i].blank {
        RunSome(lines, i + 1, j, Section(AnalysisTitle, lines[i].text, Shield));
        GrowNonEmpty(lines[i].text, lines, i + 1, j);
      } else {
        RunNone(lines, i + 1, j, f);
      }
    }
  }

  /** The scan up to the next header is one run of non-header lines. */
  lemma {:induction false} ScanToNextHeader(lines: seq<Line>, i: nat, j: nat, current: Option<Section>)
    requires i <= |lines| && j == NextHeader(lines, i)
    ensures Scan(lines, i, current) ==
        Emit(Run(lines, i, j, current))
        + (if j < |lines| then Scan(lines, j + 1, Some(Open(lines[j].header.value))) else [])
    decreases |lines| - i
  {
    if i < |lines| && lines[i].header.None? {
      ScanToNextHeader(lines, i + 1, j, Step(current, lines[i]));
    }
  }

  /** The headers from `i` on are those from the next header on. */
  lemma {:induction false} HeadersFromNext(lines: seq<Line>, i: nat)
    requires i <= |lines|
    ensures HeadersFrom(lines, i) == HeadersFrom(lines, NextHeader(lines, i))
    decreases |lines| - i
  {
    if i < |lines| && lines[i].header.None? {
      HeadersFromNext(lines, i + 1);
    }
  }

  /** The content a header's section collects from the non-header lines after it. */
  lemma {:induction false} HeaderRun(lines: seq<Line>, h: nat, j: nat)
    requires h < |lines| && lines[h].header.Some? && j == NextHeader(lines, h + 1)
    ensures Run(lines, h + 1, j, Some(Open(lines[h].header.value))) == Some(HeadedSection(lines, h, j))
  {
    RunSome(lines, h + 1, j, Open(lines[h].header.value));
    GrowFromEmpty(lines, h + 1, j);
  }

  /** The headed sections from `i` on are those from the next header on. */
  lemma {:induction false} SectionsFromNext(lines: seq<Line>, i: nat, j: nat)
    requires i <= |lines| && j == NextHeader(lines, i)
    ensures SectionsFrom(lines, i) == SectionsFrom(lines, j)
    decreases |lines| - i
  {
    if i < |lines| && lines[i].header.None? {
      SectionsFromNext(lines, i + 1, j);
    }
  }

  /** The scan after the header at `h` emits the sections of that header and every later one. */
  lemma {:induction false} ScanAfterHeader(lines: seq<Line>, h: nat)
    requires h < |lines| && lines[h].header.Some?
    ensures Scan(lines, h + 1, Some(Open(lines[h].header.value))) == SectionsFrom(lines, h)
    decreases |lines| - h
  {
    var j := NextHeader(lines, h + 1);
    var open := Some(Open(lines[h].header.value));
    ScanToNextHeader(lines, h + 1, j, open);
    HeaderRun(lines, h, j);
    if j < |lines| {
      ScanAfterHeader(lines, j);
    }
    SectionsFromNext(lines, h + 1, j);
  }

  /** The loop's output is the reference segmentation. */
  lemma {:induction false} ScanIsSections(lines: seq<Line>)
    requires Consistent(lines)
    ensures Scan(lines, 0, None) == Sections(lines)
  {
    var j := NextHeader(lines, 0);
    var rest := if j < |lines| then Scan(lines, j + 1, Some(Open(lines[j].header.value))) else [];
    calc {
      Scan(lines, 0, None);
    == { ScanToNextHeader(lines, 0, j, None); }
      Emit(Run(lines, 0, j, None)) + rest;
    == { RunNone(lines, 0, j, FirstNonBlank(lines, 0, j)); }
      Preamble(lines, j) + rest;
    == { if j < |lines| { ScanAfterHeader(lines, j); } SectionsFromNext(lines, 0, j); }
      Preamble(lines, j) + SectionsFrom(lines, 0);
    }
  }
}
