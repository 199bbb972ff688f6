/** Python string and bytes primitives that the helpers of coco/utils.py rely on:
    the `str`/`bytes` distinction, `str.isspace`, `str.strip`, `*` repetition,
    `sep.join(...)` and `str.split(sep)`. */
module Strings {

  newtype byte = x: int | 0 <= x < 256

  type Bytes = seq<byte>

  /** A Python value that is either a `str` or a `bytes` object. Several helpers
      of the source accept both and answer with the same kind. */
  datatype Data = Text(text: string) | Binary(bytes: Bytes)

  /** Python's `None` or a value. */
  datatype Option<T> = None | Some(value: T)

  /** Python's `str.isspace` for one character: the Unicode white space characters. */
  predicate IsSpace(c: char)
  {
    || c == ' ' || c == '\t' || c == '\n' || c == '\r'
    || c == '\U{0b}' || c == '\U{0c}'
    || ('\U{1c}' <= c <= '\U{1f}')
    || c == '\U{85}' || c == '\U{a0}' || c == '\U{1680}'
    || ('\U{2000}' <= c <= '\U{200a}')
    || c == '\U{2028}' || c == '\U{2029}' || c == '\U{202f}'
    || c == '\U{205f}' || c == '\U{3000}'
  }

  /** True when `line.strip()` is empty, that is when `if line.strip():` fails. */
  predicate IsBlank(s: string)
  {
    forall i :: 0 <= i < |s| ==> IsSpace(s[i])
  }

  /** `s.lstrip()`. */
  function LStrip(s: string): string
  {
    if |s| > 0 && IsSpace(s[0]) then LStrip(s[1..]) else s
  }

  /** `s.rstrip()`. */
  function RStrip(s: string): string
  {
    if |s| > 0 && IsSpace(s[|s| - 1]) then RStrip(s[..|s| - 1]) else s
  }

  /** `lstrip()` leaves the suffix of `s` that starts at its first character
      that is not white space. */
  lemma {:induction false} LStripSpec(s: string)
    ensures var r := LStrip(s);
      && |r| <= |s| && r == s[|s| - |r|..]
      && IsBlank(s[..|s| - |r|])
      && (r == [] || !IsSpace(r[0]))
  {
    if |s| > 0 && IsSpace(s[0]) {
      LStripSpec(s[1..]);
      var r := LStrip(s);
      assert s[..|s| - |r|] == [s[0]] + s[1..][..|s| - 1 - |r|];
    }
  }

  /** `rstrip()` leaves the prefix of `s` that ends at its last character that
      is not white space. */
  lemma {:induction false} RStripSpec(s: string)
    ensures var r := RStrip(s);
      && |r| <= |s| && r == s[..|r|]
      && IsBlank(s[|r|..])
      && (r == [] || !IsSpace(r[|r| - 1]))
  {
    if |s| > 0 && IsSpace(s[|s| - 1]) {
      var s' := s[..|s| - 1];
      RStripSpec(s');
      var r := RStrip(s);
      assert s[|r|..] == s'[|r|..] + [s[|s| - 1]];
    }
  }

  /** `s.strip()`. */
  function Strip(s: string): string
  {
    RStrip(LStrip(s))
  }

  /** A string that `strip()` leaves alone. */
  predicate IsStripped(s: string)
  {
    s == [] || (!IsSpace(s[0]) && !IsSpace(s[|s| - 1]))
  }

  /** How many characters `strip()` cuts from the front of `s`. */
  function LeadingSpace(s: string): (n: nat)
    ensures n <= |s|
  {
    LStripSpec(s);
    |s| - |LStrip(s)|
  }

  /** What `strip()` means: the result is a slice of `s` with no white space at
      either end, and everything cut away on both sides is white space. */
  lemma StripSpec(s: string)
    ensures var r, i := Strip(s), LeadingSpace(s);
      && IsStripped(r)
      && i + |r| <= |s|
      && s[i..i + |r|] == r
      && IsBlank(s[..i])
      && IsBlank(s[i + |r|..])
  {
    var l := LStrip(s);
    var r := RStrip(l);
    var i := |s| - |l|;
    LStripSpec(s);
    RStripSpec(l);
    assert s[i..i + |r|] == l[..|r|];
    assert s[i + |r|..] == l[|r|..];
    if r != [] {
      assert r[0] == l[0];
    }
  }

  /** Stripping twice is stripping once, so the extra `.strip()` that
      `net_input` applies to the parsed command changes nothing. */
  lemma StripIdempotent(s: string)
    ensures Strip(Strip(s)) == Strip(s)
  {
    var r := Strip(s);
    StripSpec(s);
    assert LStrip(r) == r;
    assert RStrip(r) == r;
  }

  /** `strip()` leaves a string without white space at its ends unchanged. */
  lemma StrippedIsFixed(s: string)
    requires IsStripped(s)
    ensures Strip(s) == s
  {
    assert LStrip(s) == s;
  }

  /** `s.strip()` is empty exactly when `s` is all white space. */
  lemma StripEmptyIffBlank(s: string)
    ensures Strip(s) == [] <==> IsBlank(s)
  {
    StripSpec(s);
    var i := LeadingSpace(s);
    if Strip(s) == [] {
      assert s == s[..i] + s[i..];
    }
  }

  function Max(a: int, b: int): int
  {
    if a < b then b else a
  }

  /** `s * n` for a `str` or `bytes` `s` and a Python int `n`: empty when `n <= 0`. */
  function Repeat<T>(s: seq<T>, n: int): (r: seq<T>)
    ensures |r| == |s| * Max(n, 0)
    ensures forall i :: 0 <= i < |r| && |s| == 1 ==> r[i] == s[0]
    decreases Max(n, 0)
  {
    if n <= 0 then [] else s + Repeat(s, n - 1)
  }

  /** `s` is `[a, b]` over and over: `a` at every even index, `b` at every odd one. */
  predicate Alternating<T(==)>(s: seq<T>, a: T, b: T)
  {
    |s| % 2 == 0 && forall j :: 0 <= j < |s| ==> s[j] == if j % 2 == 0 then a else b
  }

  /** Repeating a pair gives the pair over and over. */
  lemma {:induction false} RepeatPair<T>(a: T, b: T, n: int)
    ensures Alternating(Repeat([a, b], n), a, b)
    decreases Max(n, 0)
  {
    if n > 0 {
      RepeatPair(a, b, n - 1);
      var rest := Repeat([a, b], n - 1);
      var r := Repeat([a, b], n);
      assert r == [a, b] + rest;
      forall j | 2 <= j < |r| ensures r[j] == if j % 2 == 0 then a else b {
        assert r[j] == rest[j - 2];
      }
    }
  }

  /** `sep.join(parts)`. */
  function Join<T>(sep: seq<T>, parts: seq<seq<T>>): (r: seq<T>)
  {
    if |parts| == 0 then []
    else if |parts| == 1 then parts[0]
    else parts[0] + sep + Join(sep, parts[1..])
  }

  /** `s.split(sep)` for a one-element separator: the pieces between the separators,
      always at least one. */
  function Split<T(==)>(sep: T, s: seq<T>): (r: seq<seq<T>>)
    ensures |r| >= 1
  {
    if |s| == 0 then [[]]
    else
      var rest := Split(sep, s[1..]);
      if s[0] == sep then [[]] + rest
      else [[s[0]] + rest[0]] + rest[1..]
  }

  /** All pieces concatenated: `b''.join(parts)`. */
  function Concat<T>(parts: seq<seq<T>>): seq<T>
  {
    if |parts| == 0 then [] else parts[0] + Concat(parts[1..])
  }

  /** Concatenating one more piece at the end appends it. */
  lemma {:induction false} ConcatAppend<T>(parts: seq<seq<T>>, last: seq<T>)
    ensures Concat(parts + [last]) == Concat(parts) + last
    decreases |parts|
  {
    if |parts| == 0 {
      assert parts + [last] == [last];
    } else {
      assert (parts + [last])[1..] == parts[1..] + [last];
      ConcatAppend(parts[1..], last);
    }
  }

  lemma {:induction false} SplitNoSep<T>(sep: T, p: seq<T>)
    requires sep !in p
    ensures Split(sep, p) == [p]
  {
    if |p| > 0 {
      SplitNoSep(sep, p[1..]);
      assert [p[0]] + p[1..] == p;
    }
  }

  lemma {:induction false} SplitAfterPiece<T>(sep: T, p: seq<T>, rest: seq<T>)
    requires sep !in p
    ensures Split(sep, p + [sep] + rest) == [p] + Split(sep, rest)
  {
    if |p| == 0 {
      assert ([sep] + rest)[1..] == rest;
    } else {
      SplitAfterPiece(sep, p[1..], rest);
      assert (p + [sep] + rest)[1..] == p[1..] + [sep] + rest;
      assert [p[0]] + p[1..] == p;
    }
  }

  /** Splitting a joined list on its (one-element) separator gives the list back,
      provided no piece contains the separator. */
  lemma {:induction false} SplitJoin<T>(sep: T, parts: seq<seq<T>>)
    requires |parts| >= 1
    requires forall i :: 0 <= i < |parts| ==> sep !in parts[i]
    ensures Split(sep, Join([sep], parts)) == parts
  {
    if |parts| == 1 {
      SplitNoSep(sep, parts[0]);
    } else {
      SplitJoin(sep, parts[1..]);
      SplitAfterPiece(sep, parts[0], Join([sep], parts[1..]));
      assert [parts[0]] + parts[1..] == parts;
    }
  }

  /** Every element of `sep.join(parts)` comes from `sep` or from one of the parts. */
  lemma {:induction false} JoinWithin<T>(sep: seq<T>, parts: seq<seq<T>>, alphabet: set<T>)
    requires forall x :: x in sep ==> x in alphabet
    requires forall i, x :: 0 <= i < |parts| && x in parts[i] ==> x in alphabet
    ensures forall x :: x in Join(sep, parts) ==> x in alphabet
  {
    if |parts| > 1 {
      JoinWithin(sep, parts[1..], alphabet);
      assert forall x :: x in parts[0] ==> x in alphabet;
    } else if |parts| == 1 {
      assert forall x :: x in parts[0] ==> x in alphabet;
    }
  }

  /** The first index at or after `from` where `x` occurs in `s`, or `|s|`. */
  function IndexOf<T(==)>(x: T, s: seq<T>, from: nat): (k: nat)
    requires from <= |s|
    ensures from <= k <= |s|
    ensures k < |s| ==> s[k] == x
    ensures forall j :: from <= j < k ==> s[j] != x
    decreases |s| - from
  {
    if from == |s| then |s|
    else if s[from] == x then from
    else IndexOf(x, s, from + 1)
  }

  /** `c.isdigit()` for the ASCII digits. */
  predicate IsDigit(c: char)
  {
    '0' <= c <= '9'
  }

  /** `int(s)` for a string of decimal digits. */
  function DigitsValue(s: string): (n: nat)
    requires forall i :: 0 <= i < |s| ==> IsDigit(s[i])
  {
    if |s| == 0 then 0
    else
      assert IsDigit(s[|s| - 1]);
      DigitsValue(s[..|s| - 1]) * 10 + (s[|s| - 1] as int - '0' as int)
  }

  predicate IsAscii(s: string)
  {
    forall i :: 0 <= i < |s| ==> s[i] as int < 128
  }

  /** `s.encode('utf-8')` for a string of ASCII characters: one byte per character. */
  function AsciiBytes(s: string): Bytes
    requires IsAscii(s)
  {
    seq(|s|, i requires 0 <= i < |s| => s[i] as int as byte)
  }

  lemma AsciiBytesConcat(a: string, b: string)
    requires IsAscii(a) && IsAscii(b)
    ensures IsAscii(a + b) && AsciiBytes(a + b) == AsciiBytes(a) + AsciiBytes(b)
  {
    assert IsAscii(a + b) by {
      forall i | 0 <= i < |a + b| ensures (a + b)[i] as int < 128 {
        if i < |a| { assert (a + b)[i] == a[i]; } else { assert (a + b)[i] == b[i - |a|]; }
      }
    }
  }
}
