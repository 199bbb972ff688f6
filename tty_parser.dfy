/** `TtyIOParser` of coco/utils.py (lines 102-153): rebuilds a typed command and
    a command's output from what a virtual terminal screen shows after being fed
    the raw bytes. The terminal emulator is a parameter: given the screen size
    and the chunks fed since the screen was last reset, it yields the rows the
    screen displays, top to bottom. */
module TtyParser {
  import opened Strings

  type Emulator = (nat, nat, seq<Bytes>) -> seq<string>

  const DefaultWidth: nat := 80
  const DefaultHeight: nat := 24

  /* ---------- the prompt pattern `^\[?.*@.*\]?[\$#]\s|mysql>\s` (line 107) ---------- */

  /** Position `q` can end the first alternative of the prompt pattern at the
      start of `s`: a `$` or `#` followed by white space, with an `@` somewhere
      before it, and no line break before it (`.` does not match one). */
  predicate PromptMarkAt(s: string, q: nat)
  {
    && q + 1 < |s|
    && (s[q] == '$' || s[q] == '#')
    && IsSpace(s[q + 1])
    && '@' in s[..q]
    && '\n' !in s[..q]
  }

  /** The largest position below `hi` where the first alternative can end.
      Greedy `.*` makes the match at the start of the string run to the last
      such position, so this is where the shell prompt is taken to end. */
  function LastPromptMark(s: string, hi: nat): (q: Option<nat>)
    requires hi <= |s|
    ensures q.Some? ==> q.value < hi && PromptMarkAt(s, q.value)
    ensures q.Some? ==> forall k :: q.value < k < hi ==> !PromptMarkAt(s, k)
    ensures q.None? ==> forall k :: 0 <= k < hi ==> !PromptMarkAt(s, k)
  {
    if hi == 0 then None
    else if PromptMarkAt(s, hi - 1) then Some(hi - 1)
    else LastPromptMark(s, hi - 1)
  }

  /** `re.sub` of the second alternative, `mysql>\s`, everywhere from left to right. */
  function RemoveMysqlPrompts(s: string): (r: string)
    ensures |r| <= |s|
  {
    if |s| >= 7 && s[..6] == "mysql>" && IsSpace(s[6]) then RemoveMysqlPrompts(s[7..])
    else if |s| == 0 then []
    else [s[0]] + RemoveMysqlPrompts(s[1..])
  }

  /** `clean_ps1_etc(command)`: `ps1_pattern.sub('', command)`. The first
      alternative is anchored, so it can only match once, at the very start;
      the scan then continues after it with the second alternative only. */
  function CleanPs1(s: string): string
  {
    match LastPromptMark(s, |s|)
    case Some(q) => RemoveMysqlPrompts(s[q + 2..])
    case None => RemoveMysqlPrompts(s)
  }

  /* ---------- parse_input and parse_output over the displayed rows ---------- */

  /** The rows `if line.strip():` keeps, in order, unstripped (parse_output). */
  function NonBlankRows(rows: seq<string>): seq<string>
  {
    if |rows| == 0 then []
    else
      var last := rows[|rows| - 1];
      NonBlankRows(rows[..|rows| - 1]) + (if Strip(last) != [] then [last] else [])
  }

  /** The rows stripped, keeping the non-empty results, in order (parse_input). */
  function StrippedRows(rows: seq<string>): seq<string>
  {
    if |rows| == 0 then []
    else
      var line := Strip(rows[|rows| - 1]);
      StrippedRows(rows[..|rows| - 1]) + (if line != [] then [line] else [])
  }

  /** Python's `xs[0:-1]`: everything but the last element, empty for an empty list. */
  function DropLast<T>(xs: seq<T>): seq<T>
  {
    if |xs| == 0 then [] else xs[..|xs| - 1]
  }

  /** What `parse_input` answers for a screen showing `rows`. */
  function ParseInputOf(rows: seq<string>): string
  {
    var command := StrippedRows(rows);
    var last := if |command| > 0 then command[|command| - 1] else "";
    Strip(CleanPs1(last))
  }

  /** What `parse_output` answers for a screen showing `rows`. */
  function ParseOutputOf(rows: seq<string>, sep: string): string
  {
    Strip(Join(sep, DropLast(NonBlankRows(rows))))
  }

  /* ---------- properties of the two parses ---------- */

  /** `NonBlankRows` distributes over concatenation ... */
  lemma {:induction false} NonBlankRowsAppend(a: seq<string>, b: seq<string>)
    ensures NonBlankRows(a + b) == NonBlankRows(a) + NonBlankRows(b)
    decreases |b|
  {
    if |b| > 0 {
      var b' := b[..|b| - 1];
      assert (a + b)[..|a + b| - 1] == a + b';
      NonBlankRowsAppend(a, b');
    } else {
      assert a + b == a;
    }
  }

  /** ... and keeps a single row exactly when it is not blank; together the two
      say that it keeps the rows that are not blank, unchanged and in order. */
  lemma NonBlankRowsSingle(row: string)
    ensures NonBlankRows([row]) == if IsBlank(row) then [] else [row]
  {
    StripEmptyIffBlank(row);
    assert [row][..0] == [];
  }

  /** A screen whose rows are all blank leaves nothing for either parse. */
  lemma {:induction false} BlankRowsVanish(rows: seq<string>)
    requires forall i :: 0 <= i < |rows| ==> IsBlank(rows[i])
    ensures NonBlankRows(rows) == [] && StrippedRows(rows) == []
  {
    if |rows| > 0 {
      StripEmptyIffBlank(rows[|rows| - 1]);
      BlankRowsVanish(rows[..|rows| - 1]);
    }
  }

  /** parse_input strips each kept row, parse_output does not: the rows
      parse_input sees are exactly those of parse_output, stripped. */
  lemma {:induction false} StrippedRowsAreNonBlankRowsStripped(rows: seq<string>)
    ensures var s, n := StrippedRows(rows), NonBlankRows(rows);
      |s| == |n| && forall i :: 0 <= i < |s| ==> s[i] == Strip(n[i])
  {
    if |rows| > 0 {
      StrippedRowsAreNonBlankRowsStripped(rows[..|rows| - 1]);
    }
  }

  /** The command is read from the last row that is not blank, whatever the
      rows above it hold. */
  lemma {:induction false} StrippedRowsLast(rows: seq<string>, k: nat)
    requires k < |rows| && !IsBlank(rows[k])
    requires forall j :: k < j < |rows| ==> IsBlank(rows[j])
    ensures var c := StrippedRows(rows); |c| > 0 && c[|c| - 1] == Strip(rows[k])
    decreases |rows|
  {
    var n := |rows| - 1;
    StripEmptyIffBlank(rows[n]);
    if k < n {
      StrippedRowsLast(rows[..n], k);
    }
  }

  lemma CleanPs1Empty()
    ensures CleanPs1("") == ""
  {
  }

  /** `parse_input`: the last non-blank displayed row, stripped, with the
      prompt removed and stripped again. */
  lemma ParseInputTakesLastRow(rows: seq<string>, k: nat)
    requires k < |rows| && !IsBlank(rows[k])
    requires forall j :: k < j < |rows| ==> IsBlank(rows[j])
    ensures ParseInputOf(rows) == Strip(CleanPs1(Strip(rows[k])))
  {
    var command := StrippedRows(rows);
    StrippedRowsLast(rows, k);
    ParseInputOfLast(rows, command[|command| - 1]);
  }

  lemma ParseInputOfLast(rows: seq<string>, last: string)
    requires var c := StrippedRows(rows); |c| > 0 && c[|c| - 1] == last
    ensures ParseInputOf(rows) == Strip(CleanPs1(last))
  {
  }

  /** `parse_input` of a screen with only blank rows is the empty string. */
  lemma ParseInputAllBlank(rows: seq<string>)
    requires forall i :: 0 <= i < |rows| ==> IsBlank(rows[i])
    ensures ParseInputOf(rows) == ""
  {
    BlankRowsVanish(rows);
    CleanPs1Empty();
  }

  /** `parse_input` never answers with white space at either end. */
  lemma ParseInputIsStripped(rows: seq<string>)
    ensures IsStripped(ParseInputOf(rows))
  {
    var command := StrippedRows(rows);
    StripSpec(CleanPs1(if |command| > 0 then command[|command| - 1] else ""));
  }

  /** `parse_output`: with a non-blank last row (the next prompt) and only blank
      rows below it, the answer is every earlier non-blank row, in order,
      joined by `sep`, with the whole stripped. */
  lemma ParseOutputDropsPromptRow(rows: seq<string>, prompt: string, below: seq<string>, sep: string)
    requires !IsBlank(prompt)
    requires forall i :: 0 <= i < |below| ==> IsBlank(below[i])
    ensures ParseOutputOf(rows + [prompt] + below, sep) == Strip(Join(sep, NonBlankRows(rows)))
  {
    NonBlankRowsAppend(rows + [prompt], below);
    NonBlankRowsAppend(rows, [prompt]);
    NonBlankRowsSingle(prompt);
    BlankRowsVanish(below);
    var n := NonBlankRows(rows);
    assert NonBlankRows(rows + [prompt] + below) == n + [prompt];
    assert DropLast(n + [prompt]) == n;
  }

  /** With fewer than two non-blank rows there is nothing but the prompt. */
  lemma ParseOutputOnlyPrompt(rows: seq<string>, sep: string)
    requires |NonBlankRows(rows)| < 2
    ensures ParseOutputOf(rows, sep) == ""
  {
  }

  /** Positions without a `$` or `#` cannot end a prompt. */
  lemma {:induction false} LastPromptMarkSkips(s: string, lo: nat, hi: nat)
    requires lo <= hi <= |s|
    requires forall k :: lo <= k < hi ==> s[k] != '$' && s[k] != '#'
    ensures LastPromptMark(s, hi) == LastPromptMark(s, lo)
    decreases hi
  {
    if lo < hi {
      LastPromptMarkSkips(s, lo, hi - 1);
    }
  }

  /** Text without a `>` holds no `mysql> ` prompt to remove. */
  lemma {:induction false} RemoveMysqlPromptsNone(s: string)
    requires '>' !in s
    ensures RemoveMysqlPrompts(s) == s
  {
    if |s| > 0 {
      if |s| >= 7 {
        assert s[5] in s;
        assert s[..6][5] != "mysql>"[5];
      }
      RemoveMysqlPromptsNone(s[1..]);
      assert [s[0]] + s[1..] == s;
    }
  }

  /** The prompt pattern removes a leading `user@host$ `. */
  lemma CleanShellRow(user: string, host: string, cmd: string)
    requires '\n' !in user && '\n' !in host
    requires '$' !in cmd && '#' !in cmd && '>' !in cmd
    ensures CleanPs1(user + "@" + host + "$ " + cmd) == cmd
  {
    var row := user + "@" + host + "$ " + cmd;
    var q := |user| + 1 + |host|;
    assert row[q] == '$' && row[q + 1] == ' ' && row[q + 2..] == cmd;
    assert row[..q] == user + "@" + host;
    assert row[..q][|user|] == '@';
    assert PromptMarkAt(row, q);
    forall k | q + 1 <= k < |row| ensures row[k] != '$' && row[k] != '#' {
      if k > q + 1 {
        assert row[k] == cmd[k - q - 2];
      }
    }
    LastPromptMarkSkips(row, q + 1, |row|);
    RemoveMysqlPromptsNone(cmd);
  }

  /** The prompt pattern removes a leading `mysql> `. */
  lemma CleanMysqlRow(cmd: string)
    requires '$' !in cmd && '#' !in cmd && '>' !in cmd
    ensures CleanPs1("mysql> " + cmd) == cmd
  {
    var row := "mysql> " + cmd;
    forall k | 0 <= k < |row| ensures row[k] != '$' && row[k] != '#' {
      if k >= 7 {
        assert row[k] == cmd[k - 7];
      }
    }
    LastPromptMarkSkips(row, 0, |row|);
    assert row[..6] == "mysql>" && row[6] == ' ' && row[7..] == cmd;
    RemoveMysqlPromptsNone(cmd);
  }

  /** A single stripped, non-blank row above blank rows is what `parse_input` cleans. */
  lemma TakesOnlyRow(row: string, below: seq<string>, cmd: string)
    requires !IsBlank(row) && Strip(row) == row && Strip(CleanPs1(row)) == cmd
    requires forall i :: 0 <= i < |below| ==> IsBlank(below[i])
    ensures ParseInputOf([row] + below) == cmd
  {
    var rows := [row] + below;
    assert rows[0] == row;
    assert forall j :: 0 < j < |rows| ==> IsBlank(rows[j]);
    ParseInputTakesLastRow(rows, 0);
  }

  /** A shell prompt `user@host$ ` in front of the typed command is removed,
      as are the blank rows under it. */
  lemma ParseInputShellPrompt(row: string, user: string, host: string, cmd: string, below: seq<string>)
    requires row == user + "@" + host + "$ " + cmd
    requires '\n' !in user && '\n' !in host
    requires user == [] || !IsSpace(user[0])
    requires cmd != [] && IsStripped(cmd) && '$' !in cmd && '#' !in cmd && '>' !in cmd
    requires forall i :: 0 <= i < |below| ==> IsBlank(below[i])
    ensures ParseInputOf([row] + below) == cmd
  {
    assert row[0] == if user == [] then '@' else user[0];
    assert row[|row| - 1] == cmd[|cmd| - 1];
    assert !IsBlank(row) by { assert !IsSpace(row[0]); }
    StrippedIsFixed(row);
    StrippedIsFixed(cmd);
    CleanShellRow(user, host, cmd);
    TakesOnlyRow(row, below, cmd);
  }

  /** A `mysql> ` prompt in front of the typed command is removed too. */
  lemma ParseInputMysqlPrompt(cmd: string, below: seq<string>)
    requires cmd != [] && IsStripped(cmd) && '$' !in cmd && '#' !in cmd && '>' !in cmd
    requires forall i :: 0 <= i < |below| ==> IsBlank(below[i])
    ensures ParseInputOf(["mysql> " + cmd] + below) == cmd
  {
    var row := "mysql> " + cmd;
    assert row[0] == 'm' && row[|row| - 1] == cmd[|cmd| - 1];
    assert !IsBlank(row) by { assert !IsSpace(row[0]); }
    StrippedIsFixed(row);
    CleanMysqlRow(cmd);
    StrippedIsFixed(cmd);
    TakesOnlyRow(row, below, cmd);
  }

  /** One row of output followed by the next prompt: only the output row comes
      back, stripped; blank rows under the prompt do not matter. */
  lemma ParseOutputOneRow(line: string, prompt: string, below: seq<string>, sep: string)
    requires !IsBlank(line) && !IsBlank(prompt)
    requires forall i :: 0 <= i < |below| ==> IsBlank(below[i])
    ensures ParseOutputOf([line, prompt] + below, sep) == Strip(line)
  {
    var rows := [line, prompt] + below;
    assert [line] + [prompt] + below == rows;
    ParseOutputDropsPromptRow([line], prompt, below, sep);
    assert ParseOutputOf(rows, sep) == Strip(Join(sep, NonBlankRows([line])));
    NonBlankRowsSingle(line);
    assert NonBlankRows([line]) == [line];
    assert Join(sep, [line]) == line;
  }

  class TtyIOParser {
    const width: nat
    const height: nat
    /** The terminal emulator (pyte's `Screen` with its `ByteStream`). */
    const emulate: Emulator
    /** The chunks fed to the screen since it was last reset. */
    var fed: seq<Bytes>

    /** `screen.display`. */
    function Display(): seq<string>
      reads this
    {
      emulate(width, height, fed)
    }

    /** `TtyIOParser(width, height)`: a blank screen of that size. */
    constructor (emulate: Emulator, width: nat := DefaultWidth, height: nat := DefaultHeight)
      ensures this.width == width && this.height == height && this.emulate == emulate
      ensures fed == []
    {
      this.width := width;
      this.height := height;
      this.emulate := emulate;
      fed := [];
    }

    /** `stream.feed(d)`. */
    method Feed(d: Bytes)
      modifies this
      ensures fed == old(fed) + [d]
    {
      fed := fed + [d];
    }

    /** `screen.reset()`. */
    method Reset()
      modifies this
      ensures fed == []
    {
      fed := [];
    }

    /** `parse_output(data, sep)`: feeds every chunk, keeps the non-blank
        displayed rows, resets the screen and joins all rows but the last. */
    method ParseOutput(data: seq<Bytes>, sep: string := "\n") returns (r: string)
      modifies this
      ensures r == ParseOutputOf(emulate(width, height, old(fed) + data), sep)
      ensures fed == []
    {
      var output: seq<string> := [];
      for i := 0 to |data|
        invariant fed == old(fed) + data[..i]
      {
        Feed(data[i]);
        assert data[..i + 1] == data[..i] + [data[i]];
      }
      assert data[..|data|] == data;
      var display := Display();
      for i := 0 to |display|
        invariant output == NonBlankRows(display[..i])
      {
        var line := display[i];
        assert display[..i + 1][..i] == display[..i];
        if Strip(line) != [] {
          output := output + [line];
        }
      }
      assert display[..|display|] == display;
      Reset();
      r := Strip(Join(sep, DropLast(output)));
    }

    /** `parse_input(data)`: feeds every chunk, takes the last displayed row
        that is not blank, resets the screen and removes the shell prompt. */
    method ParseInput(data: seq<Bytes>) returns (r: string)
      modifies this
      ensures r == ParseInputOf(emulate(width, height, old(fed) + data))
      ensures fed == []
    {
      var command: seq<string> := [];
      for i := 0 to |data|
        invariant fed == old(fed) + data[..i]
      {
        Feed(data[i]);
        assert data[..i + 1] == data[..i] + [data[i]];
      }
      assert data[..|data|] == data;
      var display := Display();
      for i := 0 to |display|
        invariant command == StrippedRows(display[..i])
      {
        var line := Strip(display[i]);
        assert display[..i + 1][..i] == display[..i];
        if line != [] {
          command := command + [line];
        }
      }
      assert display[..|display|] == display;
      var last := if |command| > 0 then command[|command| - 1] else "";
      Reset();
      last := CleanPs1(last);
      r := Strip(last);
    }
  }
}
