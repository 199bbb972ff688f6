/** The text decoration helpers of coco/utils.py: `wrap_with_line_feed`
    (lines 181-184) and `wrap_with_color` (lines 187-229). */
module Wrap {
  import opened Strings

  const CRLF: string := "\r\n"
  const CRLFBytes: Bytes := [13, 10]

  /** `wrap_with_line_feed(s, before, after)`: `before` line breaks, then `s`,
      then `after` line breaks, in the same kind (`str` or `bytes`) as `s`. */
  function WrapWithLineFeed(s: Data, before: int := 0, after: int := 1): (r: Data)
    ensures r.Text? == s.Text?
  {
    match s
    case Binary(b) => Binary(Repeat(CRLFBytes, before) + b + Repeat(CRLFBytes, after))
    case Text(t) => Text(Repeat(CRLF, before) + t + Repeat(CRLF, after))
  }

  /** The result is `before` line breaks `\r\n`, the text unchanged, then
      `after` line breaks; a negative count adds none. */
  lemma UnwrapLineFeed(t: string, before: int, after: int)
    ensures var r := WrapWithLineFeed(Text(t), before, after).text;
      && |r| == |t| + 2 * Max(before, 0) + 2 * Max(after, 0)
      && Alternating(r[..2 * Max(before, 0)], '\r', '\n')
      && r[2 * Max(before, 0)..|r| - 2 * Max(after, 0)] == t
      && Alternating(r[|r| - 2 * Max(after, 0)..], '\r', '\n')
  {
    var r := WrapWithLineFeed(Text(t), before, after).text;
    var pre, post := Repeat(CRLF, before), Repeat(CRLF, after);
    assert CRLF == ['\r', '\n'];
    RepeatPair('\r', '\n', before);
    RepeatPair('\r', '\n', after);
    assert r[..|pre|] == pre;
    assert r[|pre|..|r| - |post|] == t;
    assert r[|r| - |post|..] == post;
  }

  /** The same for `bytes`: the added bytes are pairs 13, 10. */
  lemma UnwrapLineFeedBytes(b: Bytes, before: int, after: int)
    ensures var r := WrapWithLineFeed(Binary(b), before, after).bytes;
      && |r| == |b| + 2 * Max(before, 0) + 2 * Max(after, 0)
      && Alternating(r[..2 * Max(before, 0)], 13, 10)
      && r[2 * Max(before, 0)..|r| - 2 * Max(after, 0)] == b
      && Alternating(r[|r| - 2 * Max(after, 0)..], 13, 10)
  {
    var r := WrapWithLineFeed(Binary(b), before, after).bytes;
    var pre, post := Repeat(CRLFBytes, before), Repeat(CRLFBytes, after);
    RepeatPair(13 as byte, 10 as byte, before);
    RepeatPair(13 as byte, 10 as byte, after);
    assert r[..|pre|] == pre;
    assert r[|pre|..|r| - |post|] == b;
    assert r[|r| - |post|..] == post;
  }

  /** `color_map.get(color, '')`. */
  function ColorCode(color: string): string
  {
    match color
    case "black" => "30"
    case "red" => "31"
    case "green" => "32"
    case "brown" => "33"
    case "blue" => "34"
    case "purple" => "35"
    case "cyan" => "36"
    case "white" => "37"
    case _ => ""
  }

  /** `background_map.get(background, '')`. */
  function BackgroundCode(background: string): string
  {
    match background
    case "black" => "40"
    case "red" => "41"
    case "green" => "42"
    case "brown" => "43"
    case "blue" => "44"
    case "purple" => "45"
    case "cyan" => "46"
    case "white" => "47"
    case _ => ""
  }

  /** The list `wrap_with` that `wrap_with_color` builds: bold, underline,
      background (only when one is given), and always the colour last.
      `background` is `""` for both Python's `None` and `''`, which the source
      treats alike. */
  function SgrParams(color: string, background: string, bolder: bool, underline: bool): seq<string>
  {
    (if bolder then ["1"] else [])
    + (if underline then ["4"] else [])
    + (if background != "" then [BackgroundCode(background)] else [])
    + [ColorCode(color)]
  }

  const Esc: char := '\U{1b}'
  const ResetSgr: string := [Esc] + "[0m"

  /** The characters a select graphic rendition prefix is made of. */
  const SgrAlphabet: set<char> := {'0', '1', '2', '3', '4', '5', '6', '7', '8', '9', ';', '[', 'm', Esc}

  function SgrPrefix(params: seq<string>): string
  {
    [Esc] + "[" + Join(";", params) + "m"
  }

  lemma SgrParamsDigits(color: string, background: string, bolder: bool, underline: bool)
    ensures var p := SgrParams(color, background, bolder, underline);
      forall i, c :: 0 <= i < |p| && c in p[i] ==> '0' <= c <= '9'
  {
  }

  /** The prefix consists of ASCII characters only, and has no 'm' before its last character. */
  lemma SgrPrefixShape(color: string, background: string, bolder: bool, underline: bool)
    ensures var j := Join(";", SgrParams(color, background, bolder, underline));
      && (forall c :: c in j ==> ('0' <= c <= '9' || c == ';') && c in SgrAlphabet && c != 'm')
      && IsAscii(SgrPrefix(SgrParams(color, background, bolder, underline)))
  {
    var p := SgrParams(color, background, bolder, underline);
    var digits := {'0', '1', '2', '3', '4', '5', '6', '7', '8', '9', ';'};
    SgrParamsDigits(color, background, bolder, underline);
    JoinWithin(";", p, digits);
    var pre := SgrPrefix(p);
    forall i | 0 <= i < |pre| ensures pre[i] as int < 128 {
      assert pre[i] in pre;
      assert pre[i] in SgrAlphabet by {
        if 2 <= i < |pre| - 1 {
          assert pre[i] == Join(";", p)[i - 2];
        }
      }
    }
  }

  /** `wrap_with_color(text, color, background, bolder, underline)`. A `bytes`
      text is decoded, wrapped and encoded again; since the added characters are
      ASCII this is the text's bytes between the prefix's and the reset's bytes. */
  function WrapWithColor(text: Data, color: string := "white", background: string := "", bolder: bool := false,
                         underline: bool := false): (r: Data)
    ensures r.Text? == text.Text?
  {
    var prefix := SgrPrefix(SgrParams(color, background, bolder, underline));
    match text
    case Text(t) => Text(prefix + t + ResetSgr)
    case Binary(b) =>
      SgrPrefixShape(color, background, bolder, underline);
      Binary(AsciiBytes(prefix) + b + AsciiBytes(ResetSgr))
  }

  /** Reads a coloured string back: the parameters of its leading escape
      sequence and the text between that sequence and the trailing reset. */
  function DecodeColored(r: string): Option<(seq<string>, string)>
  {
    if |r| < 2 || r[..2] != [Esc] + "[" then None
    else
      var m := IndexOf('m', r, 2);
      if m + 1 + |ResetSgr| > |r| || r[|r| - |ResetSgr|..] != ResetSgr then None
      else Some((Split(';', r[2..m]), r[m + 1..|r| - |ResetSgr|]))
  }

  /** Decoding undoes `wrap_with_color`: the escape sequence carries exactly
      the codes bold, underline, background and colour in that order, and the
      text comes back unchanged. */
  lemma {:induction false} DecodeWrapWithColor(t: string, color: string, background: string, bolder: bool, underline: bool)
    ensures DecodeColored(WrapWithColor(Text(t), color, background, bolder, underline).text)
      == Some((SgrParams(color, background, bolder, underline), t))
  {
    var p := SgrParams(color, background, bolder, underline);
    var j := Join(";", p);
    var r := WrapWithColor(Text(t), color, background, bolder, underline).text;
    SgrPrefixShape(color, background, bolder, underline);
    assert r == [Esc] + "[" + j + "m" + t + ResetSgr;
    assert r[..2] == [Esc] + "[";
    var m := IndexOf('m', r, 2);
    assert r[2 + |j|] == 'm';
    assert m == 2 + |j|;
    assert r[2..m] == j;
    assert r[|r| - |ResetSgr|..] == ResetSgr;
    assert r[m + 1..|r| - |ResetSgr|] == t;
    SgrParamsDigits(color, background, bolder, underline);
    SplitJoin(';', p);
  }

  /** `wrap_with_warning`, `wrap_with_info`, `wrap_with_primary` and
      `wrap_with_title`: `wrap_with_color` with fixed colours. */
  function WrapWithWarning(text: Data, bolder: bool := false): Data
  {
    WrapWithColor(text, "red", "", bolder, false)
  }

  function WrapWithInfo(text: Data, bolder: bool := false): Data
  {
    WrapWithColor(text, "brown", "", bolder, false)
  }

  function WrapWithPrimary(text: Data, bolder: bool := false): Data
  {
    WrapWithColor(text, "green", "", bolder, false)
  }

  function WrapWithTitle(text: Data): Data
  {
    WrapWithColor(text, "black", "green", false, false)
  }

  /** The codes each fixed-colour helper writes: red, brown or green text,
      bold on request, and black on green for a title. */
  lemma NamedWrapsDecode(t: string, bolder: bool)
    ensures var bold := if bolder then ["1"] else [];
      && DecodeColored(WrapWithWarning(Text(t), bolder).text) == Some((bold + ["31"], t))
      && DecodeColored(WrapWithInfo(Text(t), bolder).text) == Some((bold + ["33"], t))
      && DecodeColored(WrapWithPrimary(Text(t), bolder).text) == Some((bold + ["32"], t))
      && DecodeColored(WrapWithTitle(Text(t)).text) == Some((["42", "30"], t))
  {
    var bold := if bolder then ["1"] else [];
    assert ColorCode("red") == "31" && ColorCode("brown") == "33";
    assert ColorCode("green") == "32" && ColorCode("black") == "30" && BackgroundCode("green") == "42";
    assert SgrParams("red", "", bolder, false) == bold + ["31"];
    assert SgrParams("brown", "", bolder, false) == bold + ["33"];
    assert SgrParams("green", "", bolder, false) == bold + ["32"];
    assert SgrParams("black", "green", false, false) == ["42", "30"];
    DecodeWrapWithColor(t, "red", "", bolder, false);
    DecodeWrapWithColor(t, "brown", "", bolder, false);
    DecodeWrapWithColor(t, "green", "", bolder, false);
    DecodeWrapWithColor(t, "black", "green", false, false);
  }

  /** For ASCII text the `bytes` path is the `str` path encoded. */
  lemma WrapWithColorEncodes(t: string, color: string, background: string, bolder: bool, underline: bool)
    requires IsAscii(t)
    ensures var s := WrapWithColor(Text(t), color, background, bolder, underline).text;
      IsAscii(s) && WrapWithColor(Binary(AsciiBytes(t)), color, background, bolder, underline) == Binary(AsciiBytes(s))
  {
    var prefix := SgrPrefix(SgrParams(color, background, bolder, underline));
    SgrPrefixShape(color, background, bolder, underline);
    AsciiBytesConcat(prefix, t);
    AsciiBytesConcat(prefix + t, ResetSgr);
  }
}
