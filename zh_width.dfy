/** The display-width helpers of coco/utils.py (lines 352-400): a character in
    the range U+4E00..U+9FA5 takes two terminal columns, every other character
    one; `align_with_zh` pads a value to a column width, `format_with_zh` lines
    values up in columns and `item_max_length` finds the widest of a list of
    values. */
module ZhWidth {
  import opened Strings

  /** A value handed to the helpers: a `str`, or an `int` that they first turn
      into its decimal text. */
  datatype Value = Str(s: string) | Int(n: int)

  function DigitChar(d: nat): (c: char)
    requires d < 10
  {
    ('0' as int + d) as char
  }

  /** `str(n)` for `n >= 0`. */
  function Decimal(n: nat): (r: string)
    ensures |r| > 0 && forall i :: 0 <= i < |r| ==> '0' <= r[i] <= '9'
  {
    if n < 10 then [DigitChar(n)] else Decimal(n / 10) + [DigitChar(n % 10)]
  }

  /** `str(v)`. */
  function AsString(v: Value): string
  {
    match v
    case Str(s) => s
    case Int(n) => if n < 0 then "-" + Decimal(-n) else Decimal(n)
  }

  /** The decimal text of `n` reads back as `n`. */
  lemma {:induction false} DecimalValue(n: nat)
    ensures DigitsValue(Decimal(n)) == n
    decreases n
  {
    if n >= 10 {
      var p := Decimal(n / 10);
      DecimalValue(n / 10);
      assert (p + [DigitChar(n % 10)])[..|p|] == p;
    }
  }

  /** `int_length(n)`: the length of `str(n)`. For `n >= 0` it is at most `k`
      exactly when `n < 10 ** k`; a negative number takes one more for its
      sign. */
  function IntLength(n: int): (r: nat)
    ensures r >= 1 && (n < 0 ==> r >= 2)
    ensures n >= 0 ==> forall k: nat :: 0 < k ==> (r <= k <==> n < Pow10(k))
    ensures n < 0 ==> forall k: nat :: 0 < k ==> (r <= k + 1 <==> -n < Pow10(k))
  {
    DecimalDigits(if n < 0 then -n else n);
    |AsString(Int(n))|
  }

  /** `str(n)` has at most `k` digits exactly when `n < 10 ** k`. */
  lemma DecimalDigits(n: nat)
    ensures forall k: nat :: 0 < k ==> (|Decimal(n)| <= k <==> n < Pow10(k))
  {
    forall k: nat | 0 < k ensures |Decimal(n)| <= k <==> n < Pow10(k) {
      DecimalLength(n, k - 1);
    }
  }

  /** The decimal text of `n` has one digit per power of ten up to `n`. */
  lemma {:induction false} DecimalLength(n: nat, k: nat)
    ensures |Decimal(n)| <= k + 1 <==> n < Pow10(k + 1)
    decreases n
  {
    if n >= 10 {
      if k > 0 {
        DecimalLength(n / 10, k - 1);
      } else {
        assert |Decimal(n / 10)| >= 1;
      }
    }
  }

  function Pow10(k: nat): (r: nat)
    ensures r >= 1
  {
    if k == 0 then 1 else 10 * Pow10(k - 1)
  }

  /** The characters `zh_pattern` matches. */
  predicate IsChinese(c: char)
  {
    '\U{4e00}' <= c <= '\U{9fa5}'
  }

  /** `find_chinese(s)`: every matching character, in order, as a one-character string. */
  function FindChinese(s: string): (r: seq<string>)
    ensures |r| <= |s|
    ensures forall i :: 0 <= i < |r| ==> |r[i]| == 1 && IsChinese(r[i][0]) && r[i][0] in s
    ensures forall c :: c in s && IsChinese(c) ==> [c] in r
  {
    if |s| == 0 then []
    else
      var rest := FindChinese(s[1..]);
      assert forall c :: c in s ==> c == s[0] || c in s[1..];
      (if IsChinese(s[0]) then [[s[0]]] else []) + rest
  }

  lemma {:induction false} FindChineseAppend(a: string, b: string)
    ensures FindChinese(a + b) == FindChinese(a) + FindChinese(b)
    decreases |a|
  {
    if |a| > 0 {
      assert (a + b)[1..] == a[1..] + b;
      FindChineseAppend(a[1..], b);
    } else {
      assert a + b == b;
    }
  }

  /** Scanning one more character adds it to the matches exactly when it is Chinese. */
  lemma FindChineseSnoc(s: string, c: char)
    ensures FindChinese(s + [c]) == FindChinese(s) + (if IsChinese(c) then [[c]] else [])
  {
    FindChineseAppend(s, [c]);
    assert [c][1..] == [];
  }

  /** The columns one character takes. */
  function Width(c: char): nat
  {
    if IsChinese(c) then 2 else 1
  }

  /** The columns a string takes: the sum of its characters' widths. */
  function DisplayWidth(s: string): nat
  {
    if |s| == 0 then 0 else DisplayWidth(s[..|s| - 1]) + Width(s[|s| - 1])
  }

  lemma {:induction false} DisplayWidthAppend(a: string, b: string)
    ensures DisplayWidth(a + b) == DisplayWidth(a) + DisplayWidth(b)
    decreases |b|
  {
    if |b| == 0 {
      assert a + b == a;
    } else {
      var b' := b[..|b| - 1];
      assert (a + b)[..|a + b| - 1] == a + b';
      DisplayWidthAppend(a, b');
    }
  }

  lemma {:induction false} DisplayWidthRepeat(s: string, n: nat)
    ensures DisplayWidth(Repeat(s, n)) == DisplayWidth(s) * n
  {
    if n > 0 {
      var rest := Repeat(s, n - 1);
      assert Repeat(s, n) == s + rest;
      DisplayWidthRepeat(s, n - 1);
      DisplayWidthAppend(s, rest);
      MulStep(DisplayWidth(s), n);
    }
  }

  lemma MulStep(w: nat, n: nat)
    requires n > 0
    ensures w * n == w + w * (n - 1)
  {
  }

  /** `size_of_str_with_zh(v)`: the length plus the number of matching characters. */
  function SizeOfStrWithZh(v: Value): nat
  {
    var s := AsString(v);
    |s| + |FindChinese(s)|
  }

  /** `size_of_str_with_zh` is the number of columns the value's text takes. */
  lemma {:induction false} SizeIsDisplayWidth(v: Value)
    ensures SizeOfStrWithZh(v) == DisplayWidth(AsString(v))
  {
    WidthCountsChinese(AsString(v));
  }

  lemma {:induction false} WidthCountsChinese(s: string)
    ensures DisplayWidth(s) == |s| + |FindChinese(s)|
    decreases |s|
  {
    if |s| > 0 {
      var p, c := s[..|s| - 1], s[|s| - 1];
      WidthCountsChinese(p);
      assert p + [c] == s;
      FindChineseAppend(p, [c]);
      assert [c][1..] == [];
    }
  }

  /** A number's text has no wide characters: its size is its length. */
  lemma IntSize(n: int)
    ensures SizeOfStrWithZh(Int(n)) == |AsString(Int(n))|
  {
    var s := AsString(Int(n));
    assert forall i :: 0 <= i < |s| ==> !IsChinese(s[i]);
    NoChineseFound(s);
  }

  lemma {:induction false} NoChineseFound(s: string)
    requires forall i :: 0 <= i < |s| ==> !IsChinese(s[i])
    ensures FindChinese(s) == []
    decreases |s|
  {
    if |s| > 0 {
      NoChineseFound(s[1..]);
    }
  }

  /** `align_with_zh(v, length, addin)`: the value's text followed by `addin`
      repeated as often as the text falls short of `length` columns, counting
      wide characters twice. */
  function AlignWithZh(v: Value, length: int, addin: string := " "): (r: string)
    ensures |r| >= |AsString(v)| && r[..|AsString(v)|] == AsString(v)
  {
    var s := AsString(v);
    var zhLen := |FindChinese(s)|;
    var padding := length - (|s| - zhLen) - zhLen * 2;
    var paddingContent := if padding > 0 then Repeat(addin, padding) else "";
    s + paddingContent
  }

  /** What the padding adds: one copy of `addin` per column missing. */
  lemma AlignWidth(v: Value, length: int, addin: string)
    ensures var s := AsString(v);
      && AlignWithZh(v, length, addin) == s + Repeat(addin, Max(length - DisplayWidth(s), 0))
      && DisplayWidth(AlignWithZh(v, length, addin))
           == DisplayWidth(s) + DisplayWidth(addin) * Max(length - DisplayWidth(s), 0)
  {
    var s := AsString(v);
    var w := DisplayWidth(s);
    WidthCountsChinese(s);
    var padding := length - w;
    assert AlignWithZh(v, length, addin) == s + if padding > 0 then Repeat(addin, padding) else "";
    if padding > 0 {
      var content := Repeat(addin, padding);
      DisplayWidthAppend(s, content);
      DisplayWidthRepeat(addin, padding);
      assert Max(padding, 0) == padding;
    } else {
      assert s + "" == s;
      assert Max(padding, 0) == 0;
    }
  }

  /** With a one-column pad character the result is exactly `length` columns
      wide, unless the text is already wider, in which case it is left alone. */
  lemma AlignFillsColumns(v: Value, length: int, pad: char)
    requires !IsChinese(pad)
    ensures var s := AsString(v);
      && DisplayWidth(AlignWithZh(v, length, [pad])) == Max(length, DisplayWidth(s))
      && (length <= DisplayWidth(s) ==> AlignWithZh(v, length, [pad]) == s)
  {
    AlignWidth(v, length, [pad]);
    assert DisplayWidth([pad]) == 1 by {
      assert [pad][..0] == [];
    }
    var s := AsString(v);
    WidthCountsChinese(s);
  }

  /** The fields of `format_with_zh(size_list, *args)`: each value aligned to
      its size with spaces; `zip` stops at the shorter list. */
  function Fields(sizes: seq<int>, args: seq<Value>): (r: seq<string>)
    ensures |r| == if |sizes| < |args| then |sizes| else |args|
    ensures forall i :: 0 <= i < |r| ==>
      && AsString(args[i]) <= r[i]
      && DisplayWidth(r[i]) == Max(sizes[i], DisplayWidth(AsString(args[i])))
  {
    var n := if |sizes| < |args| then |sizes| else |args|;
    AlignAllFill(sizes, args, n);
    seq(n, i requires 0 <= i < n => AlignWithZh(args[i], sizes[i], " "))
  }

  /** Each of the first `n` values aligned with spaces fills its columns. */
  lemma AlignAllFill(sizes: seq<int>, args: seq<Value>, n: nat)
    requires n <= |sizes| && n <= |args|
    ensures forall i :: 0 <= i < n ==>
      DisplayWidth(AlignWithZh(args[i], sizes[i], " ")) == Max(sizes[i], DisplayWidth(AsString(args[i])))
  {
    forall i | 0 <= i < n
      ensures DisplayWidth(AlignWithZh(args[i], sizes[i], " ")) == Max(sizes[i], DisplayWidth(AsString(args[i])))
    {
      AlignFillsColumns(args[i], sizes[i], ' ');
    }
  }

  /** `format_with_zh(size_list, *args)`. */
  function FormatWithZh(sizes: seq<int>, args: seq<Value>): string
  {
    Join(" ", Fields(sizes, args))
  }

  /** The columns each field takes: its size, or its text's width if wider. */
  function Columns(sizes: seq<int>, args: seq<Value>): int
  {
    if |sizes| == 0 || |args| == 0 then 0
    else Max(sizes[0], DisplayWidth(AsString(args[0]))) + Columns(sizes[1..], args[1..])
  }

  function TotalWidth(parts: seq<string>): nat
  {
    if |parts| == 0 then 0 else DisplayWidth(parts[0]) + TotalWidth(parts[1..])
  }

  lemma {:induction false} JoinWidth(parts: seq<string>)
    requires |parts| > 0
    ensures DisplayWidth(Join(" ", parts)) == TotalWidth(parts) + |parts| - 1
    decreases |parts|
  {
    if |parts| > 1 {
      JoinWidth(parts[1..]);
      assert DisplayWidth(" ") == 1 by {
        assert " "[..0] == [];
      }
      DisplayWidthAppend(parts[0], " ");
      DisplayWidthAppend(parts[0] + " ", Join(" ", parts[1..]));
    }
  }

  lemma {:induction false} FieldsWidth(sizes: seq<int>, args: seq<Value>)
    ensures TotalWidth(Fields(sizes, args)) == Columns(sizes, args)
    decreases |sizes|
  {
    if |sizes| > 0 && |args| > 0 {
      assert Fields(sizes, args)[1..] == Fields(sizes[1..], args[1..]);
      FieldsWidth(sizes[1..], args[1..]);
      AlignFillsColumns(args[0], sizes[0], ' ');
    }
  }

  /** The formatted line lines its values up in columns: each value takes
      exactly its size in display columns (or its own width, if wider), with
      one space between neighbours. */
  lemma FormatWithZhWidth(sizes: seq<int>, args: seq<Value>)
    requires |sizes| > 0 && |args| > 0
    ensures DisplayWidth(FormatWithZh(sizes, args))
      == Columns(sizes, args) + (if |sizes| < |args| then |sizes| else |args|) - 1
  {
    JoinWidth(Fields(sizes, args));
    FieldsWidth(sizes, args);
  }

  /** The largest element of a non-empty list, Python's `max`. */
  function MaxOf(xs: seq<int>): (m: int)
    requires |xs| > 0
    ensures m in xs && forall i :: 0 <= i < |xs| ==> xs[i] <= m
  {
    if |xs| == 1 then xs[0] else Max(xs[0], MaxOf(xs[1..]))
  }

  function Sizes(items: seq<Value>): seq<nat>
  {
    seq(|items|, i requires 0 <= i < |items| => SizeOfStrWithZh(items[i]))
  }

  /** `item_max_length(items, maxi, mini)`; `maxi` and `mini` are only used
      when they are truthy, so `0` stands for `None` as well. */
  function ItemMaxLength(items: seq<Value>, maxi: int := 0, mini: int := 0): int
  {
    var length := Sizes(items);
    if |length| == 0 then 1
    else
      var all := if maxi != 0 then length + [maxi] else length;
      var m := MaxOf(all);
      if mini != 0 && m < mini then mini else m
  }

  /** `item_max_length(items, maxi, mini, key)` with a `key`: the same on the
      keys of the items. */
  function ItemMaxLengthWithKey<T>(items: seq<T>, key: T -> Value, maxi: int := 0, mini: int := 0): (r: int)
    ensures |items| == 0 ==> r == 1
  {
    ItemMaxLength(seq(|items|, i requires 0 <= i < |items| => key(items[i])), maxi, mini)
  }

  /** For a non-empty list the result is the widest item, raised to `maxi` and
      to `mini` when these are given: no smaller than any of them, and equal
      to one of them. */
  lemma ItemMaxLengthIsMax(items: seq<Value>, maxi: int, mini: int)
    requires |items| > 0
    ensures var r := ItemMaxLength(items, maxi, mini);
      && (forall i :: 0 <= i < |items| ==> SizeOfStrWithZh(items[i]) <= r)
      && (maxi != 0 ==> maxi <= r)
      && (mini != 0 ==> mini <= r)
      && ((exists i :: 0 <= i < |items| && r == SizeOfStrWithZh(items[i]))
          || (maxi != 0 && r == maxi) || (mini != 0 && r == mini))
  {
    var length := Sizes(items);
    var all := if maxi != 0 then length + [maxi] else length;
    var m := MaxOf(all);
    assert forall i :: 0 <= i < |items| ==> all[i] == SizeOfStrWithZh(items[i]);
    if maxi != 0 {
      assert all[|all| - 1] == maxi;
    }
    var k :| 0 <= k < |all| && all[k] == m;
    if k < |items| {
      assert m == SizeOfStrWithZh(items[k]);
    }
  }

  /** An empty list gives width 1. */
  lemma ItemMaxLengthEmpty(maxi: int, mini: int)
    ensures ItemMaxLength([], maxi, mini) == 1
  {
  }
}
