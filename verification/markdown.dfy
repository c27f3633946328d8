/** The report converter (`md_to_html`): the Markdown report is read line
    by line into a sequence of HTML blocks — headings, rules, tables,
    lists and paragraphs — which are rendered between a fixed prologue and
    epilogue. The stylesheet text is a parameter. */
module Markdown {
  import opened Sql
  import opened Text

  // ---------------------------------------------------------------------
  // Inline formatting

  /** One `re.sub` of a delimited span with a lazy body, as for `**(.+?)**`
      and `` `(.+?)` ``: scanning left to right, an opening delimiter
      followed by at least one character and the next closing delimiter is
      replaced, and scanning resumes after it. */
  function Wrap(s: string, d: string, open: string, close: string): string
    requires |d| > 0
    decreases |s|
  {
    if |s| == 0 then ""
    else if StartsWith(s, d) && |d| + 1 <= |s| && IndexFrom(s, d, |d| + 1).Some? then
      var j := IndexFrom(s, d, |d| + 1).value;
      open + s[|d|..j] + close + Wrap(s[j + |d|..], d, open, close)
    else
      [s[0]] + Wrap(s[1..], d, open, close)
  }

  /** `re.sub(r'\[(.+?)\]\((.+?)\)', r'<a href="\2">\1</a>', s)`: the text
      runs to the first `](` after at least one character, the target to
      the first `)` after at least one more. */
  function Link(s: string): string
    decreases |s|
  {
    if |s| == 0 then ""
    else if s[0] == '[' && 2 <= |s| && IndexFrom(s, "](", 2).Some?
         && IndexFrom(s, "](", 2).value + 3 <= |s|
         && IndexFrom(s, ")", IndexFrom(s, "](", 2).value + 3).Some? then
      var j := IndexFrom(s, "](", 2).value;
      var k := IndexFrom(s, ")", j + 3).value;
      "<a href=\"" + s[j + 2..k] + "\">" + s[1..j] + "</a>" + Link(s[k + 1..])
    else
      [s[0]] + Link(s[1..])
  }

  /** `format_inline`: bold, then links, then code. */
  function FormatInline(t: string): string
  {
    Wrap(Link(Wrap(t, "**", "<strong>", "</strong>")), "`", "<code>", "</code>")
  }

  /** Text without the delimiter passes through unchanged. */
  lemma {:induction false} WrapAbsent(s: string, d: string, open: string, close: string)
    requires |d| > 0 && !Contains(s, d)
    ensures Wrap(s, d, open, close) == s
    decreases |s|
  {
    if |s| > 0 {
      if StartsWith(s, d) {
        assert OccursAt(s, d, 0);
      }
      assert !Contains(s[1..], d) by {
        forall i | 0 <= i <= |s[1..]| - |d| ensures !OccursAt(s[1..], d, i) {
          assert s[1..][i..i + |d|] == s[i + 1..i + 1 + |d|];
          assert !OccursAt(s, d, i + 1);
        }
      }
      WrapAbsent(s[1..], d, open, close);
      assert s == [s[0]] + s[1..];
    }
  }

  predicate NoChar(s: string, c: char)
  {
    forall i :: 0 <= i < |s| ==> s[i] != c
  }

  /** Text without `[` has no link. */
  lemma {:induction false} LinkAbsent(s: string)
    requires NoChar(s, '[')
    ensures Link(s) == s
  {
    if |s| > 0 {
      LinkAbsent(s[1..]);
      assert s == [s[0]] + s[1..];
    }
  }

  lemma {:induction false} NoCharNotContained(s: string, p: string)
    requires |p| > 0 && NoChar(s, p[0])
    ensures !Contains(s, p)
  {
    forall i | 0 <= i <= |s| - |p| ensures !OccursAt(s, p, i) {
      assert s[i..i + |p|][0] == s[i];
    }
  }

  /** Plain text — no `*`, `[` or backquote — is left as it is. */
  lemma {:induction false} FormatInlinePlain(t: string)
    requires NoChar(t, '*') && NoChar(t, '[') && NoChar(t, '`')
    ensures FormatInline(t) == t
  {
    NoCharNotContained(t, "**");
    WrapAbsent(t, "**", "<strong>", "</strong>");
    LinkAbsent(t);
    NoCharNotContained(t, "`");
    WrapAbsent(t, "`", "<code>", "</code>");
  }

  /** The closing `**` of a bold span is the first one after its text. */
  lemma {:induction false} BoldClose(a: string)
    requires |a| > 0 && NoChar(a, '*')
    ensures IndexFrom("**" + a + "**", "**", 3) == Some(|a| + 2)
  {
    var s := "**" + a + "**";
    var k := |a| + 2;
    assert s[k..k + 2] == "**";
    assert OccursAt(s, "**", k);
    var r := IndexFrom(s, "**", 3);
    if r.Some? && r.value < k {
      NoStarsInside(a, r.value);
    }
  }

  lemma {:induction false} NoStarsInside(a: string, j: nat)
    requires NoChar(a, '*') && 3 <= j < |a| + 2
    ensures !OccursAt("**" + a + "**", "**", j)
  {
    var s := "**" + a + "**";
    assert s[j] == a[j - 2];
  }

  /** A bold span becomes `<strong>`. */
  lemma {:induction false} BoldSpan(a: string)
    requires |a| > 0 && NoChar(a, '*')
    ensures Wrap("**" + a + "**", "**", "<strong>", "</strong>") == "<strong>" + a + "</strong>"
  {
    var s := "**" + a + "**";
    BoldClose(a);
    assert StartsWith(s, "**");
    assert s[2..|a| + 2] == a;
    assert s[|a| + 4..] == "";
  }

  // ---------------------------------------------------------------------
  // Table cells

  /** The style class a data cell gets; the first marker found wins. */
  datatype CellClass = Excellent | Acceptable | Critical | NumberCell | Unstyled

  const Tick := "\U{2705}"
  const Warning := "\U{26A0}\U{FE0F}"
  const Cross := "\U{274C}"
  const Sigma := '\U{03C3}'

  /** A character of `[\d,.\-]`; digits are the ASCII ones. */
  predicate NumberChar(c: char)
  {
    IsDigit(c) || c == ',' || c == '.' || c == '-'
  }

  /** `^[\d,.\-]+$`. */
  predicate NumberText(s: string)
  {
    |s| > 0 && forall i :: 0 <= i < |s| ==> NumberChar(s[i])
  }

  /** A number, or a number directly followed by `σ` (a count of standard
      deviations). */
  predicate NumberLike(s: string)
  {
    NumberText(s) || (|s| > 0 && s[|s| - 1] == Sigma && NumberText(s[..|s| - 1]))
  }

  function ClassOf(cell: string): CellClass
  {
    if Contains(cell, Tick) then Excellent
    else if Contains(cell, Warning) then Acceptable
    else if Contains(cell, Cross) then Critical
    else if NumberLike(Strip(cell)) then NumberCell
    else Unstyled
  }

  function ClassAttr(c: CellClass): string
  {
    match c
    case Excellent => " class=\"status-excellent\""
    case Acceptable => " class=\"status-acceptable\""
    case Critical => " class=\"status-critical\""
    case NumberCell => " class=\"number-cell\""
    case Unstyled => ""
  }

  /** `[cell.strip() for cell in line.split('|')[1:-1]]`. */
  function Cells(line: string): (cells: seq<string>)
    ensures |Split(line, "|")| >= 2 ==> |cells| == |Split(line, "|")| - 2
    ensures |Split(line, "|")| >= 2 ==>
      forall i :: 0 <= i < |cells| ==> cells[i] == Strip(Split(line, "|")[i + 1])
  {
    var parts := Split(line, "|");
    if |parts| < 2 then []
    else seq(|parts| - 2, i requires 0 <= i < |parts| - 2 => Strip(parts[i + 1]))
  }

  // ---------------------------------------------------------------------
  // Blocks and their HTML

  datatype Block =
    | Heading(level: nat, text: string)
    | Rule
    | TableStart(headers: seq<string>)
    | TableRow(cells: seq<string>)
    | TableEnd
    | ListStart
    | Item(text: string)
    | ListEnd
    | Para(line: string)
    | Blank

  function HeaderCells(hs: seq<string>): string
  {
    if |hs| == 0 then "" else HeaderCells(hs[..|hs| - 1]) + "<th>" + hs[|hs| - 1] + "</th>\n"
  }

  function DataCells(cs: seq<string>): string
  {
    if |cs| == 0 then ""
    else
      var c := cs[|cs| - 1];
      DataCells(cs[..|cs| - 1]) + "<td" + ClassAttr(ClassOf(c)) + ">" + c + "</td>\n"
  }

  function Tag(level: nat): (t: string)
    ensures |t| == 2 && t[0] == 'h'
  {
    if level == 1 then "h1" else if level == 2 then "h2" else "h3"
  }

  /** A block's HTML: its opening text, its content, its closing text. */
  function RenderBlock(b: Block): string
  {
    Opening(b) + Content(b) + Closing(b)
  }

  function Opening(b: Block): string
  {
    match b
    case Heading(n, _) => "<" + Tag(n) + ">"
    case TableStart(_) => "<table>\n<thead>\n<tr>\n"
    case TableRow(_) => "<tr>\n"
    case Item(_) => "<li>"
    case Para(_) => "<p>"
    case _ => ""
  }

  /** Item and paragraph text goes through `format_inline`; heading and
      cell text is written as it is. */
  function Content(b: Block): string
  {
    match b
    case Heading(_, t) => t
    case TableStart(hs) => HeaderCells(hs) + "</tr>\n</thead>\n"
    case TableRow(cs) => DataCells(cs)
    case Item(t) => FormatInline(t)
    case Para(l) => FormatInline(l)
    case _ => ""
  }

  function Closing(b: Block): string
  {
    match b
    case Heading(n, _) => "</" + Tag(n) + ">\n"
    case Rule => "<hr>\n"
    case TableStart(_) => "<tbody>\n"
    case TableRow(_) => "</tr>\n"
    case TableEnd => "</tbody>\n</table>\n"
    case ListStart => "<ul>\n"
    case Item(_) => "</li>\n"
    case ListEnd => "</ul>\n"
    case Para(_) => "</p>\n"
    case Blank => "\n"
  }

  function Render(bs: seq<Block>): string
  {
    if |bs| == 0 then "" else Render(bs[..|bs| - 1]) + RenderBlock(bs[|bs| - 1])
  }

  /** The document head; the stylesheet is passed in. */
  function Prologue(css: string): string
  {
    "<!DOCTYPE html>\n" + "<html lang=\"en\">\n<head>\n    <meta charset=\"UTF-8\">\n"
    + "    <meta name=\"viewport\" content=\"width=device-width, initial-scale=1.0\">\n"
    + "    <title>Data Migration Quality Assessment Report</title>\n    " + css
    + "\n</head>\n<body>\n"
  }

  const Epilogue := "\n</body>\n</html>\n"

  // ---------------------------------------------------------------------
  // The line state machine

  /** The converter's state after some lines: the blocks written so far and
      whether a table is open. */
  datatype Acc = Acc(out: seq<Block>, inTable: bool)

  predicate EndsWithItem(out: seq<Block>)
  {
    |out| > 0 && out[|out| - 1].Item?
  }

  predicate EndsWithListStart(out: seq<Block>)
  {
    |out| > 0 && out[|out| - 1].ListStart?
  }

  /** Appending blocks leaves the last of them at the end. */
  lemma {:induction false} AppendEnding(out: seq<Block>, bs: seq<Block>)
    requires |bs| > 0
    ensures EndsWithListStart(out + bs) == EndsWithListStart(bs)
    ensures EndsWithItem(out + bs) == EndsWithItem(bs)
  {
    assert (out + bs)[|out + bs| - 1] == bs[|bs| - 1];
  }

  /** `line.strip()` non-empty: the line becomes a paragraph, otherwise
      nothing (`format_regular_line` after the end of a table or list). */
  function Regular(line: string): (bs: seq<Block>)
    ensures forall b :: b in bs ==> b == Para(line)
  {
    if Strip(line) != "" then [Para(line)] else []
  }

  /** `stripped.startswith('- ')`: the line is a list item. */
  predicate ListLine(stripped: string)
  {
    |stripped| >= 2 && stripped[0] == '-' && stripped[1] == ' '
  }

  /** Python's `s[n:]`: empty when `s` is shorter than `n`. */
  function Drop(s: string, n: nat): (r: string)
    ensures |s| >= n ==> s == s[..n] + r
    ensures |s| < n ==> r == ""
  {
    if |s| >= n then s[n..] else ""
  }

  /** No table opened or closed, and rows only if one is open. */
  predicate TableFree(bs: seq<Block>, open: bool)
  {
    forall b :: b in bs ==> !b.TableStart? && !b.TableEnd? && (b.TableRow? ==> open)
  }

  /** The blocks one line appends, and whether a table is open after it,
      in the order the branches are tried. With `skipSeparators` false this
      is the converter as written; with it true, a line starting with
      `|---` inside a table (a header separator) is dropped, as the
      `'|---' not in line` guard already does for the other separator
      lines. */
  function Emit(line: string, acc: Acc, skipSeparators: bool): (e: Acc)
    ensures e.inTable == acc.inTable ==> TableFree(e.out, acc.inTable)
    ensures acc.inTable && !e.inTable ==> |e.out| > 0 && e.out[0] == TableEnd && TableFree(e.out[1..], false)
    ensures !acc.inTable && e.inTable ==> e.out == [TableStart(Cells(line))]
  {
    match Structure(line, acc.inTable, skipSeparators)
    case Some(e) => e
    case None => Acc(TextLine(line, acc.out), acc.inTable)
  }

  /** The branches that do not look at the output so far: headings, rules
      and tables. `None` when the line falls through to the text
      branches. */
  function Structure(line: string, inTable: bool, skipSeparators: bool): (r: Option<Acc>)
    ensures r.Some? ==> ListFree(r.value.out)
    ensures r.Some? && r.value.inTable == inTable ==> TableFree(r.value.out, inTable)
    ensures r.Some? && inTable && !r.value.inTable ==>
      |r.value.out| > 0 && r.value.out[0] == TableEnd && TableFree(r.value.out[1..], false)
    ensures r.Some? && !inTable && r.value.inTable ==> r.value.out == [TableStart(Cells(line))]
    ensures r.None? && inTable ==> StartsWith(Strip(line), "|")
  {
    if StartsWith(line, "# ") then Some(Acc([Heading(1, line[2..])], inTable))
    else if StartsWith(line, "## ") then Some(Acc([Heading(2, line[3..])], inTable))
    else if StartsWith(line, "### ") then Some(Acc([Heading(3, line[4..])], inTable))
    else if Strip(line) == "---" then Some(Acc([Rule], inTable))
    else if skipSeparators && inTable && StartsWith(line, "|---") then Some(Acc([], true))
    else if StartsWith(line, "|") && !StartsWith(line, "|---") then Some(PipeLine(line, inTable))
    else if inTable && !StartsWith(Strip(line), "|") then Some(Acc([TableEnd] + Regular(line), false))
    else None
  }

  /** A line starting with `|` but not `|---`: the header of a new table,
      or a row of the open one unless it holds a `|---` separator. */
  function PipeLine(line: string, inTable: bool): (e: Acc)
    ensures e.inTable
    ensures !inTable ==> e.out == [TableStart(Cells(line))]
    ensures inTable ==> TableFree(e.out, true)
  {
    if !inTable then Acc([TableStart(Cells(line))], true)
    else if !Contains(line, "|---") then Acc([TableRow(Cells(line))], true)
    else Acc([], true)
  }

  /** `<ul>` unless the output already ends in an item or `<ul>`, then the
      item, whose text is the line after its first two characters. */
  function ListItem(line: string, out: seq<Block>): (bs: seq<Block>)
    ensures forall b :: b in bs ==> b.ListStart? || b.Item?
  {
    var open := if !EndsWithItem(out) && !EndsWithListStart(out) then [ListStart] else [];
    open + [Item(Drop(line, 2))]
  }

  /** The end of an open list, then the line as a paragraph when it is not
      blank. */
  function CloseList(line: string): (bs: seq<Block>)
    ensures forall b :: b in bs ==> b == ListEnd || b == Para(line)
  {
    [ListEnd] + Regular(line)
  }

  /** A line outside the table branches: a list item, the end of a list, a
      paragraph or a blank line. */
  function TextLine(line: string, out: seq<Block>): (bs: seq<Block>)
    ensures TableFree(bs, false)
    ensures ListEnd in bs ==> EndsWithItem(out)
  {
    var stripped := Strip(line);
    if ListLine(stripped) then ListItem(line, out)
    // the second half of the source's condition, a line not starting
    // with "- ", holds here since the list branch was not taken
    else if EndsWithItem(out) then CloseList(line)
    else if stripped != "" then [Para(line)]
    else [Blank]
  }

  function Step(line: string, acc: Acc, skipSeparators: bool): (next: Acc)
    ensures acc.out <= next.out
  {
    var e := Emit(line, acc, skipSeparators);
    Acc(acc.out + e.out, e.inTable)
  }

  function Convert(lines: seq<string>, skipSeparators: bool): Acc
  {
    if |lines| == 0 then Acc([], false)
    else Step(lines[|lines| - 1], Convert(lines[..|lines| - 1], skipSeparators), skipSeparators)
  }

  /** The blocks of a whole report: every line, then the closing of a table
      still open at the end. */
  function Blocks(content: string, skipSeparators: bool): seq<Block>
  {
    var acc := Convert(Split(content, "\n"), skipSeparators);
    acc.out + (if acc.inTable then [TableEnd] else [])
  }

  /** `md_to_html` (as written when `skipSeparators` is false). */
  function MdToHtml(content: string, css: string, skipSeparators: bool): string
  {
    Prologue(css) + Render(Blocks(content, skipSeparators)) + Epilogue
  }

  // ---------------------------------------------------------------------
  // Tables: opened and closed in turn, rows only inside

  /** Whether a table is open after one more block, or `None` once a table
      has been opened inside another, closed while none was open, or given
      a row while none was open. */
  function NextTable(open: Option<bool>, b: Block): Option<bool>
  {
    match open
    case None => None
    case Some(o) =>
      if b.TableStart? then (if o then None else Some(true))
      else if b.TableEnd? then (if o then Some(false) else None)
      else if b.TableRow? then (if o then Some(true) else None)
      else Some(o)
  }

  function RunTables(open: Option<bool>, bs: seq<Block>): Option<bool>
    decreases |bs|
  {
    if |bs| == 0 then open else RunTables(NextTable(open, bs[0]), bs[1..])
  }

  lemma {:induction false} RunTablesAppend(open: Option<bool>, a: seq<Block>, b: seq<Block>)
    ensures RunTables(open, a + b) == RunTables(RunTables(open, a), b)
    decreases |a|
  {
    if |a| == 0 {
      assert a + b == b;
    } else {
      assert (a + b)[0] == a[0];
      assert (a + b)[1..] == a[1..] + b;
      RunTablesAppend(NextTable(open, a[0]), a[1..], b);
    }
  }

  lemma {:induction false} RunTablesFree(o: bool, bs: seq<Block>)
    requires TableFree(bs, o)
    ensures RunTables(Some(o), bs) == Some(o)
    decreases |bs|
  {
    if |bs| > 0 {
      assert bs[0] in bs;
      assert forall b :: b in bs[1..] ==> b in bs;
      RunTablesFree(o, bs[1..]);
    }
  }

  /** The blocks of one line keep the table flag in step with what they
      open and close. */
  lemma {:induction false} EmitTables(line: string, acc: Acc, skipSeparators: bool)
    ensures RunTables(Some(acc.inTable), Emit(line, acc, skipSeparators).out)
      == Some(Emit(line, acc, skipSeparators).inTable)
  {
    var e := Emit(line, acc, skipSeparators);
    if e.inTable == acc.inTable {
      RunTablesFree(acc.inTable, e.out);
    } else if acc.inTable {
      assert forall b :: b in e.out[1..] ==> b in e.out;
      RunTablesFree(false, e.out[1..]);
    } else {
      assert e.out[1..] == [];
    }
  }

  lemma {:induction false} ConvertTables(lines: seq<string>, skipSeparators: bool)
    ensures RunTables(Some(false), Convert(lines, skipSeparators).out)
      == Some(Convert(lines, skipSeparators).inTable)
  {
    if |lines| > 0 {
      var acc := Convert(lines[..|lines| - 1], skipSeparators);
      ConvertTables(lines[..|lines| - 1], skipSeparators);
      EmitTables(lines[|lines| - 1], acc, skipSeparators);
      RunTablesAppend(Some(false), acc.out, Emit(lines[|lines| - 1], acc, skipSeparators).out);
    }
  }

  /** Every table is closed exactly once — at the first later line that
      does not start with `|` and reaches that branch, or at the end — no
      table is opened inside another, and rows occur only inside a table. */
  lemma {:induction false} TablesBalanced(content: string, skipSeparators: bool)
    ensures RunTables(Some(false), Blocks(content, skipSeparators)) == Some(false)
  {
    var acc := Convert(Split(content, "\n"), skipSeparators);
    ConvertTables(Split(content, "\n"), skipSeparators);
    RunTablesAppend(Some(false), acc.out, if acc.inTable then [TableEnd] else []);
  }

  // ---------------------------------------------------------------------
  // Lists: items only inside a list, no empty list

  function Last(out: seq<Block>): Option<Block>
  {
    if |out| == 0 then None else Some(out[|out| - 1])
  }

  /** A block may follow `prev`: an item follows an item or `<ul>`, a
      `</ul>` follows an item, and `<ul>` is followed by an item. */
  predicate Follows(prev: Option<Block>, b: Block)
  {
    (b.Item? ==> prev.Some? && (prev.value.Item? || prev.value.ListStart?))
    && (b.ListEnd? ==> prev.Some? && prev.value.Item?)
    && (prev.Some? && prev.value.ListStart? ==> b.Item?)
  }

  /** Every block of `bs` may follow the one before it, the first one
      following `prev`. */
  predicate Chain(prev: Option<Block>, bs: seq<Block>)
  {
    forall j :: 0 <= j < |bs| ==> Follows(if j == 0 then prev else Some(bs[j - 1]), bs[j])
  }

  predicate ListsOk(out: seq<Block>)
  {
    Chain(None, out) && !EndsWithListStart(out)
  }

  lemma {:induction false} ChainAt(prev: Option<Block>, bs: seq<Block>, j: int)
    requires Chain(prev, bs) && 0 <= j < |bs|
    ensures Follows(if j == 0 then prev else Some(bs[j - 1]), bs[j])
  {
  }

  lemma {:induction false} ChainAppend(prev: Option<Block>, a: seq<Block>, b: seq<Block>)
    requires Chain(prev, a) && Chain(if |a| == 0 then prev else Last(a), b)
    ensures Chain(prev, a + b)
  {
    var mid := if |a| == 0 then prev else Last(a);
    forall j | 0 <= j < |a + b|
      ensures Follows(if j == 0 then prev else Some((a + b)[j - 1]), (a + b)[j])
    {
      if j < |a| {
        assert (a + b)[j] == a[j];
        ChainAt(prev, a, j);
        if j > 0 {
          assert (a + b)[j - 1] == a[j - 1];
        }
      } else {
        var k := j - |a|;
        assert (a + b)[j] == b[k];
        ChainAt(mid, b, k);
        if k > 0 {
          assert (a + b)[j - 1] == b[k - 1];
        } else if j > 0 {
          assert (a + b)[j - 1] == a[|a| - 1];
        }
      }
    }
  }

  /** No list block. */
  predicate ListFree(bs: seq<Block>)
  {
    forall b :: b in bs ==> !b.Item? && !b.ListEnd? && !b.ListStart?
  }

  lemma {:induction false} ListFreeChains(prev: Option<Block>, bs: seq<Block>)
    requires ListFree(bs) && (prev.Some? ==> !prev.value.ListStart?)
    ensures Chain(prev, bs)
  {
    forall j | 0 <= j < |bs| ensures Follows(if j == 0 then prev else Some(bs[j - 1]), bs[j]) {
      assert bs[j] in bs;
      if j > 0 {
        assert bs[j - 1] in bs;
      }
    }
  }

  lemma {:induction false} ChainOne(prev: Option<Block>, x: Block)
    requires Follows(prev, x)
    ensures Chain(prev, [x])
  {
  }

  lemma {:induction false} ChainTwo(prev: Option<Block>, x: Block, y: Block)
    requires Follows(prev, x) && Follows(Some(x), y)
    ensures Chain(prev, [x, y])
  {
  }

  lemma {:induction false} ListItemChains(line: string, out: seq<Block>)
    requires !EndsWithListStart(out)
    ensures Chain(Last(out), ListItem(line, out))
  {
    var it := Item(Drop(line, 2));
    if !EndsWithItem(out) && !EndsWithListStart(out) {
      ChainTwo(Last(out), ListStart, it);
    } else {
      ChainOne(Last(out), it);
    }
  }

  lemma {:induction false} ItemLineChains(line: string, out: seq<Block>)
    requires !EndsWithListStart(out) && ListLine(Strip(line))
    ensures Chain(Last(out), TextLine(line, out))
    ensures |TextLine(line, out)| > 0 && TextLine(line, out)[|TextLine(line, out)| - 1].Item?
  {
    assert TextLine(line, out) == ListItem(line, out);
    ListItemChains(line, out);
  }

  lemma {:induction false} CloseLineChains(line: string, out: seq<Block>)
    requires !ListLine(Strip(line)) && EndsWithItem(out)
    ensures Chain(Last(out), TextLine(line, out))
    ensures |TextLine(line, out)| > 0 && !TextLine(line, out)[|TextLine(line, out)| - 1].ListStart?
  {
    if Strip(line) != "" {
      assert TextLine(line, out) == [ListEnd, Para(line)];
      ChainTwo(Last(out), ListEnd, Para(line));
    } else {
      assert TextLine(line, out) == [ListEnd];
      ChainOne(Last(out), ListEnd);
    }
  }

  lemma {:induction false} PlainLineChains(line: string, out: seq<Block>)
    requires !ListLine(Strip(line)) && !EndsWithItem(out) && !EndsWithListStart(out)
    ensures Chain(Last(out), TextLine(line, out))
    ensures |TextLine(line, out)| > 0 && !TextLine(line, out)[|TextLine(line, out)| - 1].ListStart?
  {
    var bs := TextLine(line, out);
    assert bs == [Para(line)] || bs == [Blank];
    ListFreeChains(Last(out), bs);
  }

  /** The blocks of a text line fit after the output so far. */
  lemma {:induction false} TextLineChains(line: string, out: seq<Block>)
    requires !EndsWithListStart(out)
    ensures Chain(Last(out), TextLine(line, out))
    ensures !EndsWithListStart(out + TextLine(line, out))
  {
    var bs := TextLine(line, out);
    if ListLine(Strip(line)) {
      ItemLineChains(line, out);
    } else if EndsWithItem(out) {
      CloseLineChains(line, out);
    } else {
      PlainLineChains(line, out);
    }
    AppendEnding(out, bs);
  }

  lemma {:induction false} EmitChains(line: string, acc: Acc, skipSeparators: bool)
    requires !EndsWithListStart(acc.out)
    ensures Chain(Last(acc.out), Emit(line, acc, skipSeparators).out)
    ensures !EndsWithListStart(acc.out + Emit(line, acc, skipSeparators).out)
  {
    var e := Emit(line, acc, skipSeparators);
    if Structure(line, acc.inTable, skipSeparators).None? {
      TextLineChains(line, acc.out);
    } else {
      ListFreeChains(Last(acc.out), e.out);
      if |e.out| > 0 {
        assert e.out[|e.out| - 1] in e.out;
        AppendEnding(acc.out, e.out);
      } else {
        assert acc.out + e.out == acc.out;
      }
    }
  }


  lemma {:induction false} ConvertLists(lines: seq<string>, skipSeparators: bool)
    ensures ListsOk(Convert(lines, skipSeparators).out)
  {
    if |lines| > 0 {
      var acc := Convert(lines[..|lines| - 1], skipSeparators);
      ConvertLists(lines[..|lines| - 1], skipSeparators);
      EmitChains(lines[|lines| - 1], acc, skipSeparators);
      var e := Emit(lines[|lines| - 1], acc, skipSeparators);
      ChainAppend(None, acc.out, e.out);
    }
  }

  /** In a whole report every list item follows an item or `<ul>`, every
      `</ul>` follows an item, and every `<ul>` is followed by an item. */
  lemma {:induction false} ListsWellFormed(content: string, skipSeparators: bool)
    ensures ListsOk(Blocks(content, skipSeparators))
  {
    var acc := Convert(Split(content, "\n"), skipSeparators);
    ConvertLists(Split(content, "\n"), skipSeparators);
    var bs := Blocks(content, skipSeparators);
    if acc.inTable {
      assert bs == acc.out + [TableEnd];
      ChainOne(Last(acc.out), TableEnd);
      ChainAppend(None, acc.out, [TableEnd]);
      assert bs[|bs| - 1] == TableEnd;
    } else {
      assert bs == acc.out;
    }
  }

  // ---------------------------------------------------------------------
  // The output so far decides the list branch

  lemma {:induction false} BlockEnding(b: Block)
    ensures EndsWith(RenderBlock(b), Closing(b))
  {
    var r := RenderBlock(b);
    assert r == (Opening(b) + Content(b)) + Closing(b);
    assert r[|r| - |Closing(b)|..] == Closing(b);
  }

  /** What the closing texts tell apart: all but a blank line's are at
      least five characters, and their fifth and fourth characters from the
      end are `/l` only for an item (`</li>`) and `<u` only for an opened
      list (`<ul>`). */
  lemma {:induction false} ClosingFacts(b: Block)
    ensures EndsWith(Closing(b), "\n")
    ensures b.Blank? ==> Closing(b) == "\n"
    ensures !b.Blank? ==> |Closing(b)| >= 5
    ensures !b.Blank? ==> (Closing(b)[|Closing(b)| - 5] == '/' && Closing(b)[|Closing(b)| - 4] == 'l' <==> b.Item?)
    ensures !b.Blank? ==> (Closing(b)[|Closing(b)| - 5] == '<' && Closing(b)[|Closing(b)| - 4] == 'u' <==> b.ListStart?)
  {
    var c := Closing(b);
    assert c[|c| - 1..] == [c[|c| - 1]];
  }

  lemma {:induction false} EndsWithChar(s: string, p: string, k: nat)
    requires EndsWith(s, p) && 1 <= k <= |p|
    ensures s[|s| - k] == p[|p| - k]
  {
    assert s[|s| - |p|..][|p| - k] == s[|s| - k];
  }

  /** A text ending in `p`, of five or six characters, agrees with it on
      the fifth- and fourth-last characters. */
  lemma {:induction false} EndsWithPair(s: string, p: string)
    requires |p| == 5 || |p| == 6
    ensures EndsWith(s, p) ==> s[|s| - 5] == p[|p| - 5] && s[|s| - 4] == p[|p| - 4]
  {
    if EndsWith(s, p) {
      EndsWithChar(s, p, 5);
      EndsWithChar(s, p, 4);
    }
  }

  lemma {:induction false} EndsWithLong(a: string, r: string, c: string, p: string)
    requires EndsWith(r, c) && |p| <= |c|
    ensures EndsWith(a + r, p) <==> EndsWith(c, p)
  {
    assert (a + r)[|a + r| - |p|..] == r[|r| - |p|..];
    assert r[|r| - |p|..] == c[|c| - |p|..];
  }

  lemma {:induction false} EndsWithShort(a: string, r: string, c: string, p: string)
    requires EndsWith(r, c) && |c| < |p| && EndsWith(a + r, p)
    ensures EndsWith(c, p[|p| - |c|..])
  {
    assert (a + r)[|a + r| - |c|..] == r[|r| - |c|..];
    assert (a + r)[|a + r| - |c|..] == p[|p| - |c|..];
  }

  lemma {:induction false} PrologueEnding(css: string)
    ensures EndsWith(Prologue(css), "<body>\n")
  {
    var head := "<!DOCTYPE html>\n" + "<html lang=\"en\">\n<head>\n    <meta charset=\"UTF-8\">\n"
      + "    <meta name=\"viewport\" content=\"width=device-width, initial-scale=1.0\">\n"
      + "    <title>Data Migration Quality Assessment Report</title>\n    " + css;
    assert Prologue(css) == head + "\n</head>\n<body>\n";
    EndsWithLong(head, "\n</head>\n<body>\n", "<body>\n", "<body>\n");
  }

  lemma {:induction false} StartsWithMore(a: string, b: string, p: string)
    requires StartsWith(a, p)
    ensures StartsWith(a + b, p)
  {
    assert (a + b)[..|p|] == a[..|p|];
  }

  lemma {:induction false} EpilogueEnding()
    ensures EndsWith(Epilogue, "</body>\n</html>\n")
  {
    assert Epilogue == "\n" + "</body>\n</html>\n";
  }

  /** The page head opens with the document type. */
  lemma {:induction false} PrologueStart(css: string)
    ensures StartsWith(Prologue(css), "<!DOCTYPE html>\n")
  {
    var d := "<!DOCTYPE html>\n";
    var l0 := "<html lang=\"en\">\n<head>\n    <meta charset=\"UTF-8\">\n";
    var l2 := "    <meta name=\"viewport\" content=\"width=device-width, initial-scale=1.0\">\n";
    var l3 := "    <title>Data Migration Quality Assessment Report</title>\n    ";
    assert d[..|d|] == d;
    StartsWithMore(d, l0, d);
    StartsWithMore(d + l0, l2, d);
    StartsWithMore(d + l0 + l2, l3, d);
    StartsWithMore(d + l0 + l2 + l3, css, d);
    StartsWithMore(d + l0 + l2 + l3 + css, "\n</head>\n<body>\n", d);
  }

  /** The page `md_to_html` writes opens with the document type and closes
      the document. Between them every table is balanced and the list
      markers are in ListsOk order; a list cut off by a heading, a rule, a
      table or the end of the input stays unclosed, as the converter writes
      it (HeadingLeavesListOpen). */
  lemma {:induction false} MdToHtmlPage(content: string, css: string, skipSeparators: bool)
    ensures StartsWith(MdToHtml(content, css, skipSeparators), "<!DOCTYPE html>\n")
    ensures EndsWith(MdToHtml(content, css, skipSeparators), "</body>\n</html>\n")
    ensures RunTables(Some(false), Blocks(content, skipSeparators)) == Some(false)
    ensures ListsOk(Blocks(content, skipSeparators))
  {
    var body := Render(Blocks(content, skipSeparators));
    PrologueStart(css);
    StartsWithMore(Prologue(css), body, "<!DOCTYPE html>\n");
    StartsWithMore(Prologue(css) + body, Epilogue, "<!DOCTYPE html>\n");
    EpilogueEnding();
    EndsWithLong(Prologue(css) + body, Epilogue, Epilogue, "</body>\n</html>\n");
    TablesBalanced(content, skipSeparators);
    ListsWellFormed(content, skipSeparators);
  }

  lemma {:induction false} PageSnoc(head: string, out: seq<Block>)
    requires |out| > 0
    ensures head + Render(out) == (head + Render(out[..|out| - 1])) + RenderBlock(out[|out| - 1])
  {
    var r := Render(out[..|out| - 1]);
    var x := RenderBlock(out[|out| - 1]);
    assert Render(out) == r + x;
    ConcatAssociates(head, r, x);
  }

  /** The page written so far ends with a newline. */
  lemma {:induction false} PageEndsWithNewline(head: string, out: seq<Block>)
    requires EndsWith(head, "\n")
    ensures EndsWith(head + Render(out), "\n")
  {
    if |out| == 0 {
      assert head + Render(out) == head;
    } else {
      var b := out[|out| - 1];
      PageSnoc(head, out);
      BlockEnding(b);
      ClosingFacts(b);
      EndsWithLong(head + Render(out[..|out| - 1]), RenderBlock(b), Closing(b), "\n");
    }
  }

  /** Neither ending holds on a page that ends in two newlines, or in
      `<body>` and a newline. */
  lemma {:induction false} NotListEnding(page: string)
    requires EndsWith(page, "\n\n") || EndsWith(page, "<body>\n")
    ensures !EndsWith(page, "</li>\n") && !EndsWith(page, "<ul>\n")
  {
    if EndsWith(page, "\n\n") {
      EndsWithChar(page, "\n\n", 2);
    } else {
      EndsWithChar(page, "<body>\n", 5);
      EndsWithChar(page, "<body>\n", 4);
    }
  }

  /** A page ending in a closing text other than a blank line's ends in
      `</li>` or `<ul>` exactly when that closing text is an item's or an
      opened list's. */
  lemma {:induction false} ClosingDecides(page: string, b: Block)
    requires !b.Blank? && EndsWith(page, Closing(b))
    ensures EndsWith(page, "</li>\n") <==> b.Item?
    ensures EndsWith(page, "<ul>\n") <==> b.ListStart?
  {
    var c := Closing(b);
    ClosingFacts(b);
    EndsWithChar(page, c, 5);
    EndsWithChar(page, c, 4);
    EndsWithPair(page, "</li>\n");
    EndsWithPair(page, "<ul>\n");
  }

  lemma {:induction false} BlankPage(before: string)
    requires EndsWith(before, "\n")
    ensures EndsWith(before + "\n", "\n\n")
  {
    EndsWithChar(before, "\n", 1);
    var page := before + "\n";
    assert page[|page| - 2..] == [before[|before| - 1], '\n'];
  }

  lemma {:induction false} PageEndingBlank(head: string, out: seq<Block>)
    requires EndsWith(head, "<body>\n") && |out| > 0 && out[|out| - 1].Blank?
    ensures !EndsWith(head + Render(out), "</li>\n") && !EndsWith(head + Render(out), "<ul>\n")
  {
    var before := head + Render(out[..|out| - 1]);
    PageSnoc(head, out);
    assert RenderBlock(out[|out| - 1]) == "\n";
    EndsWithChar(head, "<body>\n", 1);
    assert EndsWith(head, "\n");
    PageEndsWithNewline(head, out[..|out| - 1]);
    BlankPage(before);
    NotListEnding(before + "\n");
  }

  lemma {:induction false} PageEndingBlock(head: string, out: seq<Block>)
    requires |out| > 0 && !out[|out| - 1].Blank?
    ensures EndsWith(head + Render(out), "</li>\n") <==> out[|out| - 1].Item?
    ensures EndsWith(head + Render(out), "<ul>\n") <==> out[|out| - 1].ListStart?
  {
    var b := out[|out| - 1];
    var before := head + Render(out[..|out| - 1]);
    PageSnoc(head, out);
    BlockEnding(b);
    EndsWithLong(before, RenderBlock(b), Closing(b), Closing(b));
    ClosingDecides(head + Render(out), b);
  }

  /** After a head ending in `<body>`, the page ends in `</li>` exactly
      when the last block is an item, and in `<ul>` exactly when it is an
      opened list. */
  lemma {:induction false} PageEndingAfter(head: string, out: seq<Block>)
    requires EndsWith(head, "<body>\n")
    ensures EndsWith(head + Render(out), "</li>\n") <==> EndsWithItem(out)
    ensures EndsWith(head + Render(out), "<ul>\n") <==> EndsWithListStart(out)
  {
    if |out| == 0 {
      assert head + Render(out) == head;
      NotListEnding(head);
    } else if out[|out| - 1].Blank? {
      PageEndingBlank(head, out);
    } else {
      PageEndingBlock(head, out);
    }
  }

  /** The source decides the list branches on `html.endswith('</li>\n')`
      and `html.endswith('<ul>\n')`; on the page written so far these hold
      exactly when the last block is an item, resp. an opened list, which
      is what the model looks at. */
  lemma {:induction false} PageEnding(css: string, out: seq<Block>)
    ensures EndsWith(Prologue(css) + Render(out), "</li>\n") <==> EndsWithItem(out)
    ensures EndsWith(Prologue(css) + Render(out), "<ul>\n") <==> EndsWithListStart(out)
  {
    PrologueEnding(css);
    PageEndingAfter(Prologue(css), out);
  }

  // ---------------------------------------------------------------------
  // Cell classes

  /** Every character of a cell is whitespace or a character of the
      stripped cell. */
  lemma {:induction false} StripCovers(cell: string, i: nat)
    requires i < |cell|
    ensures IsSpace(cell[i]) || cell[i] in Strip(cell)
  {
    var a := StripStart(cell);
    var r := StripEnd(a);
    assert Strip(cell) == r;
    var off := |cell| - |a|;
    if i >= off {
      assert cell[i] == cell[off..][i - off];
      assert cell[off..] == a;
      if i - off < |r| {
        assert a[..|r|] == r;
        assert cell[i] == r[i - off];
      }
    }
  }

  /** The first character of each status marker. */
  predicate MarkerChar(c: char)
  {
    c == '\U{2705}' || c == '\U{26A0}' || c == '\U{274C}'
  }

  /** No status marker begins with a character a number or whitespace is
      made of. */
  lemma {:induction false} MarkerCharApart(c: char)
    requires MarkerChar(c)
    ensures !IsSpace(c) && !NumberChar(c) && c != Sigma
  {
  }

  lemma {:induction false} NumberLikeChars(s: string)
    requires NumberLike(s)
    ensures forall c :: c in s ==> NumberChar(c) || c == Sigma
  {
    forall c | c in s ensures NumberChar(c) || c == Sigma {
      var i :| 0 <= i < |s| && s[i] == c;
      if !NumberText(s) && i < |s| - 1 {
        assert s[..|s| - 1][i] == c;
      }
    }
  }

  lemma {:induction false} NoMarkerChars(cell: string)
    requires NumberLike(Strip(cell))
    ensures forall i :: 0 <= i < |cell| ==> !MarkerChar(cell[i])
  {
    NumberLikeChars(Strip(cell));
    forall i | 0 <= i < |cell| ensures !MarkerChar(cell[i]) {
      StripCovers(cell, i);
      if MarkerChar(cell[i]) {
        MarkerCharApart(cell[i]);
      }
    }
  }

  /** Without a marker character a cell contains none of the markers. */
  lemma {:induction false} NoMarkers(cell: string)
    requires forall i :: 0 <= i < |cell| ==> !MarkerChar(cell[i])
    ensures !Contains(cell, Tick) && !Contains(cell, Warning) && !Contains(cell, Cross)
  {
    forall m, i | m in [Tick, Warning, Cross] && 0 <= i <= |cell| - |m|
      ensures !OccursAt(cell, m, i)
    {
      assert MarkerChar(m[0]);
    }
  }

  /** A cell that reads as a number, possibly followed by `σ`, holds no
      status marker, so it is always aligned as a number. */
  lemma {:induction false} NumbersAreNumberCells(cell: string)
    requires NumberLike(Strip(cell))
    ensures ClassOf(cell) == NumberCell
  {
    NoMarkerChars(cell);
    NoMarkers(cell);
  }

  /** The first marker in the priority order decides, wherever the markers
      stand. */
  lemma {:induction false} CellClassExamples()
    ensures ClassOf(Cross + Tick) == Excellent
  {
    assert OccursAt(Cross + Tick, Tick, 1);
  }

  /** A cell of one number character is aligned as a number. */
  lemma {:induction false} NumberCharCell(c: char)
    requires NumberChar(c)
    ensures ClassOf([c]) == NumberCell
  {
    var cell := [c];
    assert !MarkerChar(c);
    NoMarkers(cell);
    assert StripStart(cell) == cell;
    assert StripEnd(cell) == cell;
    assert NumberText(cell);
  }

  /** A lone dash, the report's empty value, is aligned as a number. */
  lemma {:induction false} DashIsNumber()
    ensures ClassOf("-") == NumberCell
  {
    NumberCharCell('-');
    assert "-" == ['-'];
  }

  /** A field name with digits is not a number, and a sigma is no marker. */
  lemma {:induction false} UnstyledExamples()
    ensures ClassOf("ICD9") == Unstyled
    ensures ClassOf([Sigma]) == Unstyled
  {
    UnstyledText("ICD9");
    UnstyledText([Sigma]);
  }

  /** Text without marker characters that is not stripped further and does
      not start like a number is unstyled. */
  lemma {:induction false} UnstyledText(t: string)
    requires |t| > 0 && !IsSpace(t[0]) && !IsSpace(t[|t| - 1])
    requires !NumberChar(t[0])
    requires forall i :: 0 <= i < |t| ==> !MarkerChar(t[i])
    ensures ClassOf(t) == Unstyled
  {
    NoMarkers(t);
    assert Strip(t) == t;
  }

  // ---------------------------------------------------------------------
  // Separator lines inside a table

  /** A line that does not start with whitespace keeps its first character
      when stripped. */
  lemma {:induction false} StripKeepsFirst(line: string)
    requires |line| > 0 && !IsSpace(line[0])
    ensures |Strip(line)| > 0 && Strip(line)[0] == line[0]
  {
    assert StripStart(line) == line;
    var r := StripEnd(line);
    assert Strip(line) == r;
    assert line[..|r|][0] == line[0];
  }

  /** A line starting with `|` skips the heading, rule, table-closing and
      list branches. */
  lemma {:induction false} PipeLineBranches(line: string)
    requires StartsWith(line, "|")
    ensures !StartsWith(line, "# ") && !StartsWith(line, "## ") && !StartsWith(line, "### ")
    ensures Strip(line) != "---" && StartsWith(Strip(line), "|") && !ListLine(Strip(line))
  {
    assert line[0] == '|';
    StripKeepsFirst(line);
    assert Strip(line)[..1] == [Strip(line)[0]];
  }

  /** A text line reached while a table is open starts with `|` once
      stripped, so it writes no item. */
  lemma {:induction false} TextLineInTable(line: string, out: seq<Block>)
    requires StartsWith(Strip(line), "|")
    ensures |TextLine(line, out)| > 0 && !EndsWithItem(TextLine(line, out))
  {
    var s := Strip(line);
    assert s[0] == '|' by {
      assert s[..1] == "|";
    }
    var bs := TextLine(line, out);
    assert bs[|bs| - 1] in bs;
  }

  lemma {:induction false} EmitText(line: string, acc: Acc, skipSeparators: bool)
    requires Structure(line, acc.inTable, skipSeparators).None?
    ensures Emit(line, acc, skipSeparators) == Acc(TextLine(line, acc.out), acc.inTable)
  {
  }

  lemma {:induction false} EmitStructure(line: string, acc: Acc, skipSeparators: bool)
    requires Structure(line, acc.inTable, skipSeparators).Some?
    ensures Emit(line, acc, skipSeparators) == Structure(line, acc.inTable, skipSeparators).value
  {
  }

  /** While a table is open the output never ends in a list item. */
  lemma {:induction false} EmitInTable(line: string, acc: Acc, skipSeparators: bool)
    ensures Emit(line, acc, skipSeparators).inTable ==> !EndsWithItem(Emit(line, acc, skipSeparators).out)
    ensures Emit(line, acc, skipSeparators).inTable && Emit(line, acc, skipSeparators).out == [] ==> acc.inTable
  {
    var e := Emit(line, acc, skipSeparators);
    var st := Structure(line, acc.inTable, skipSeparators);
    if st.None? {
      EmitText(line, acc, skipSeparators);
      if acc.inTable {
        TextLineInTable(line, acc.out);
      }
    } else {
      EmitStructure(line, acc, skipSeparators);
      if |e.out| > 0 {
        assert e.out[|e.out| - 1] in e.out;
      }
    }
  }

  lemma {:induction false} ConvertSnoc(lines: seq<string>, line: string, skipSeparators: bool)
    ensures Convert(lines + [line], skipSeparators) == Step(line, Convert(lines, skipSeparators), skipSeparators)
  {
    assert (lines + [line])[..|lines|] == lines;
  }

  lemma {:induction false} ConvertInTable(lines: seq<string>, skipSeparators: bool)
    ensures Convert(lines, skipSeparators).inTable ==> !EndsWithItem(Convert(lines, skipSeparators).out)
  {
    if |lines| > 0 {
      var acc := Convert(lines[..|lines| - 1], skipSeparators);
      ConvertInTable(lines[..|lines| - 1], skipSeparators);
      EmitInTable(lines[|lines| - 1], acc, skipSeparators);
      var e := Emit(lines[|lines| - 1], acc, skipSeparators);
      if |e.out| > 0 {
        AppendEnding(acc.out, e.out);
      } else {
        assert acc.out + e.out == acc.out;
      }
    }
  }

  /** As written, a `|---` line inside a table — the separator under the
      header row in the usual table layout — falls through to the paragraph
      branch: a `<p>` is written into the table body and the table stays
      open. */
  lemma {:induction false} SeparatorInTableAsWritten(lines: seq<string>, line: string)
    requires Convert(lines, false).inTable && StartsWith(line, "|---")
    ensures Convert(lines + [line], false) == Acc(Convert(lines, false).out + [Para(line)], true)
  {
    var acc := Convert(lines, false);
    assert (lines + [line])[..|lines|] == lines;
    ConvertInTable(lines, false);
    assert StartsWith(line, "|") by {
      assert line[..1] == line[..4][..1];
    }
    PipeLineBranches(line);
    assert Strip(line) != "" by {
      assert |Strip(line)| > 0;
    }
  }

  /** A first line starting with `|` (but not `|---`) opens a table with
      its cells as the header. */
  lemma {:induction false} HeaderOpensTable(line: string, skipSeparators: bool)
    requires StartsWith(line, "|") && !StartsWith(line, "|---")
    ensures Convert([line], skipSeparators) == Acc([TableStart(Cells(line))], true)
  {
    PipeLineBranches(line);
    assert [] + [line] == [line];
    ConvertSnoc([], line, skipSeparators);
  }

  /** The usual two-line table head, header then separator. */
  lemma {:induction false} SeparatorExample()
    ensures Convert(["| a |", "|---|"], false).out == [TableStart(Cells("| a |")), Para("|---|")]
  {
    var l1, l2 := "| a |", "|---|";
    assert StartsWith(l1, "|");
    assert !StartsWith(l1, "|---") by {
      assert l1[1] != "|---"[1];
    }
    HeaderOpensTable(l1, false);
    assert [l1, l2] == [l1] + [l2];
    assert StartsWith(l2, "|---");
    SeparatorInTableAsWritten([l1], l2);
  }

  predicate AllPipeLines(lines: seq<string>)
  {
    forall i :: 0 <= i < |lines| ==> StartsWith(lines[i], "|")
  }

  /** Inside a table, the corrected converter drops a `|---` line and
      hands any other `|` line to the table branch. */
  lemma {:induction false} PipeStructure(line: string)
    requires StartsWith(line, "|")
    ensures Structure(line, true, true) == Some(if StartsWith(line, "|---") then Acc([], true) else PipeLine(line, true))
  {
    PipeLineBranches(line);
  }

  /** Inside a table, the corrected converter keeps the table open on a
      `|` line and writes at most a row. */
  lemma {:induction false} PipeLineKeepsTable(line: string, acc: Acc)
    requires StartsWith(line, "|") && acc.inTable
    ensures Emit(line, acc, true).inTable
    ensures forall b :: b in Emit(line, acc, true).out ==> b.TableRow?
  {
    PipeStructure(line);
  }

  lemma {:induction false} RowsAppend(a: seq<Block>, b: seq<Block>)
    requires |a| > 0 && forall i :: 1 <= i < |a| ==> a[i].TableRow?
    requires forall x :: x in b ==> x.TableRow?
    ensures (a + b)[0] == a[0]
    ensures forall i :: 1 <= i < |a + b| ==> (a + b)[i].TableRow?
  {
    forall i | 1 <= i < |a + b| ensures (a + b)[i].TableRow? {
      if i >= |a| {
        assert (a + b)[i] == b[i - |a|];
        assert b[i - |a|] in b;
      } else {
        assert (a + b)[i] == a[i];
      }
    }
  }

  /** Corrected, a table written as consecutive `|` lines becomes the
      table header followed by rows only, separators dropped. */
  lemma {:induction false} PipeTableOnlyRows(lines: seq<string>)
    requires |lines| > 0 && AllPipeLines(lines) && !StartsWith(lines[0], "|---")
    ensures Convert(lines, true).inTable
    ensures |Convert(lines, true).out| > 0 && Convert(lines, true).out[0] == TableStart(Cells(lines[0]))
    ensures forall i :: 1 <= i < |Convert(lines, true).out| ==> Convert(lines, true).out[i].TableRow?
  {
    var line := lines[|lines| - 1];
    if |lines| == 1 {
      PipeLineBranches(line);
      assert Convert(lines, true) == Acc([TableStart(Cells(line))], true);
    } else {
      var init := lines[..|lines| - 1];
      assert AllPipeLines(init) by {
        forall i | 0 <= i < |init| ensures StartsWith(init[i], "|") {
          assert init[i] == lines[i];
        }
      }
      PipeTableOnlyRows(init);
      var acc := Convert(init, true);
      PipeLineKeepsTable(line, acc);
      RowsAppend(acc.out, Emit(line, acc, true).out);
    }
  }

  /** Both versions agree on every line but a `|---` line inside a table. */
  lemma {:induction false} CorrectionOnlySkipsSeparators(line: string, acc: Acc)
    requires !(acc.inTable && StartsWith(line, "|---"))
    ensures Emit(line, acc, true) == Emit(line, acc, false)
  {
    assert Structure(line, acc.inTable, true) == Structure(line, acc.inTable, false);
  }

  // ---------------------------------------------------------------------
  // Lists a heading interrupts

  /** A heading right after a list item is written without closing the
      `<ul>`, and the output then no longer ends in an item. */
  lemma {:induction false} HeadingLeavesListOpen(lines: seq<string>, line: string, skipSeparators: bool)
    requires EndsWithItem(Convert(lines, skipSeparators).out) && StartsWith(line, "# ")
    ensures Convert(lines + [line], skipSeparators).out == Convert(lines, skipSeparators).out + [Heading(1, line[2..])]
    ensures !EndsWithItem(Convert(lines + [line], skipSeparators).out)
  {
    ConvertSnoc(lines, line, skipSeparators);
  }

  /** `</ul>` is written only right after an item; so once a heading has
      followed an item, that list is never closed. */
  lemma {:induction false} ListEndOnlyAfterItem(line: string, acc: Acc, skipSeparators: bool)
    requires !EndsWithItem(acc.out)
    ensures ListEnd !in Emit(line, acc, skipSeparators).out
  {
    var st := Structure(line, acc.inTable, skipSeparators);
    if st.None? {
      assert Emit(line, acc, skipSeparators).out == TextLine(line, acc.out);
    } else {
      assert Emit(line, acc, skipSeparators) == st.value;
      assert ListFree(st.value.out);
    }
  }
}
