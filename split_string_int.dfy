/** `split_string_int` of coco/utils.py (lines 248-270): cuts a string into
    its runs of digits and of non-digits, lower-casing the text runs and
    reading the digit runs as numbers, so that names such as `test-01-02-db`
    sort in natural order. */
module SplitStringInt {
  import opened Strings

  /** An element of the resulting list: a lower-cased text run or an `int`. */
  datatype Item = Word(text: string) | Num(value: nat)

  /** The type a run has, `pre_type` in the source. */
  datatype Kind = Int | Str

  function KindOf(c: char): Kind
  {
    if IsDigit(c) then Int else Str
  }

  /** `word.isdigit()`: non-empty and made of digits only. */
  predicate IsDigits(s: string)
  {
    |s| > 0 && forall i :: 0 <= i < |s| ==> IsDigit(s[i])
  }

  /** `c.lower()` for the ASCII letters; every other character is kept. */
  function Lower(c: char): (r: char)
    ensures IsDigit(r) <==> IsDigit(c)
    ensures !('A' <= r <= 'Z')
  {
    if 'A' <= c <= 'Z' then (c as int + 32) as char else c
  }

  /** `s.lower()`: a string of the same length in which every ASCII capital
      becomes its small letter and every other character stays where it was;
      it is all digits exactly when `s` is. */
  function LowerString(s: string): (r: string)
    ensures |r| == |s|
    ensures forall i :: 0 <= i < |r| ==> !('A' <= r[i] <= 'Z')
    ensures forall i :: 0 <= i < |s| && 'A' <= s[i] <= 'Z' ==> r[i] as int == s[i] as int + 32
    ensures forall i :: 0 <= i < |s| && !('A' <= s[i] <= 'Z') ==> r[i] == s[i]
    ensures IsDigits(r) <==> IsDigits(s)
  {
    seq(|s|, i requires 0 <= i < |s| => Lower(s[i]))
  }

  /** How a finished run enters the list. */
  function ToItem(word: string): Item
  {
    if IsDigits(word) then Num(DigitsValue(word)) else Word(LowerString(word))
  }

  function Items(runs: seq<string>): seq<Item>
  {
    seq(|runs|, i requires 0 <= i < |runs| => ToItem(runs[i]))
  }

  lemma ItemsAppend(runs: seq<string>, word: string)
    ensures Items(runs + [word]) == Items(runs) + [ToItem(word)]
  {
    assert Items(runs + [word])[..|runs|] == Items(runs);
  }

  /** The runs of `s`, built as the loop builds them, one character at a time:
      a character of the same kind as the one before it extends the last run,
      any other starts a new run. The empty string has the one empty run. */
  function Runs(s: string): (r: seq<string>)
    ensures |r| >= 1
  {
    if |s| <= 1 then [s]
    else
      var r := Runs(s[..|s| - 1]);
      if KindOf(s[|s| - 2]) == KindOf(s[|s| - 1]) then r[..|r| - 1] + [r[|r| - 1] + [s[|s| - 1]]]
      else r + [[s[|s| - 1]]]
  }

  /** A run: non-empty, all of one kind. */
  predicate Homogeneous(w: string)
  {
    |w| > 0 && forall j :: 0 <= j < |w| ==> KindOf(w[j]) == KindOf(w[0])
  }

  /** Each run after the first is of the other kind than the one before it. */
  ghost predicate Alternates(r: seq<string>)
  {
    forall i, j :: 0 <= i < |r| && 0 <= j < |r| && j == i + 1 ==> |r[i]| > 0 && |r[j]| > 0 && KindOf(r[i][0]) != KindOf(r[j][0])
  }

  /** The runs put back together give the string. */
  lemma {:induction false} RunsConcat(s: string)
    ensures Concat(Runs(s)) == s
    decreases |s|
  {
    if |s| <= 1 {
      assert Concat([s]) == s + Concat([]);
    } else {
      var p, c := s[..|s| - 1], s[|s| - 1];
      RunsConcat(p);
      assert s == p + [c];
      RunsStepConcat(s, p, c, Runs(p));
    }
  }

  /** One more character adds itself at the end of the concatenated runs. */
  lemma RunsStepConcat(s: string, p: string, c: char, r: seq<string>)
    requires |s| >= 2 && p == s[..|s| - 1] && c == s[|s| - 1] && r == Runs(p)
    ensures Concat(Runs(s)) == Concat(r) + [c]
  {
    if KindOf(s[|s| - 2]) == KindOf(c) {
      var init, last := r[..|r| - 1], r[|r| - 1];
      assert Runs(s) == init + [last + [c]];
      assert r == init + [last];
      ConcatAppend(init, last);
      ConcatAppend(init, last + [c]);
      assert Concat(init) + (last + [c]) == (Concat(init) + last) + [c];
    } else {
      assert Runs(s) == r + [[c]];
      ConcatAppend(r, [c]);
    }
  }

  /** For a non-empty string the runs are maximal: each is non-empty and of
      one kind, and each next run is of the other kind. */
  lemma {:induction false} RunsAreMaximal(s: string)
    requires |s| > 0
    ensures forall i :: 0 <= i < |Runs(s)| ==> Homogeneous(Runs(s)[i])
    ensures Alternates(Runs(s))
    decreases |s|
  {
    if |s| > 1 {
      var p := s[..|s| - 1];
      RunsAreMaximal(p);
      RunsEndWith(p);
      MaximalStep(s, p, Runs(p));
    }
  }

  /** The last run of a non-empty string ends with its last character. */
  lemma RunsEndWith(s: string)
    requires |s| > 0
    ensures var r := Runs(s); |r[|r| - 1]| > 0 && r[|r| - 1][|r[|r| - 1]| - 1] == s[|s| - 1]
  {
  }

  /** One more character keeps the runs maximal. */
  lemma MaximalStep(s: string, p: string, r: seq<string>)
    requires |s| >= 2 && p == s[..|s| - 1] && r == Runs(p)
    requires forall i :: 0 <= i < |r| ==> Homogeneous(r[i])
    requires Alternates(r)
    requires |r[|r| - 1]| > 0 && r[|r| - 1][|r[|r| - 1]| - 1] == s[|s| - 2]
    ensures forall i :: 0 <= i < |Runs(s)| ==> Homogeneous(Runs(s)[i])
    ensures Alternates(Runs(s))
  {
    var c := s[|s| - 1];
    var last := r[|r| - 1];
    assert KindOf(last[|last| - 1]) == KindOf(last[0]);
    if KindOf(s[|s| - 2]) == KindOf(c) {
      assert Runs(s) == r[..|r| - 1] + [last + [c]];
      assert Homogeneous(last + [c]);
    } else {
      assert Runs(s) == r + [[c]];
    }
  }

  /** A run becomes an `int` exactly when it is a run of digits. */
  lemma RunItem(w: string)
    requires Homogeneous(w)
    ensures ToItem(w).Num? <==> KindOf(w[0]) == Int
  {
    if KindOf(w[0]) == Int {
      assert forall j :: 0 <= j < |w| ==> KindOf(w[j]) == Int;
    }
  }

  /** The list `split_string_int` returns for a non-empty string alternates
      between numbers and lower-cased words, one per run. */
  lemma SplitAlternates(s: string)
    requires |s| > 0
    ensures var r, items := Runs(s), Items(Runs(s));
      && (forall i :: 0 <= i < |items| ==>
            Homogeneous(r[i])
            && (items[i].Num? <==> KindOf(r[i][0]) == Int)
            && (items[i].Num? ==> items[i].value == DigitsValue(r[i]))
            && (items[i].Word? ==> items[i].text == LowerString(r[i])))
      && (forall i :: 0 <= i < |items| - 1 ==> items[i].Num? != items[i + 1].Num?)
  {
    var r := Runs(s);
    RunsAreMaximal(s);
    forall i | 0 <= i < |r| ensures Homogeneous(r[i]) && (ToItem(r[i]).Num? <==> KindOf(r[i][0]) == Int) {
      RunItem(r[i]);
    }
  }

  /** The empty string gives a list holding the empty string. */
  lemma SplitEmpty()
    ensures Items(Runs("")) == [Word("")]
  {
  }

  /** How the runs of a prefix grow by one character. */
  lemma RunsExtend(s: string, i: nat, runs: seq<string>, word: string)
    requires 0 < i < |s| && Runs(s[..i]) == runs + [word]
    ensures KindOf(s[i - 1]) == KindOf(s[i]) ==> Runs(s[..i + 1]) == runs + [word + [s[i]]]
    ensures KindOf(s[i - 1]) != KindOf(s[i]) ==> Runs(s[..i + 1]) == runs + [word] + [[s[i]]]
  {
    var t := s[..i + 1];
    var r := runs + [word];
    assert t[..|t| - 1] == s[..i];
    assert t[|t| - 2] == s[i - 1] && t[|t| - 1] == s[i];
    assert r[..|r| - 1] == runs && r[|r| - 1] == word;
    if KindOf(s[i - 1]) == KindOf(s[i]) {
      assert Runs(t) == r[..|r| - 1] + [r[|r| - 1] + [t[|t| - 1]]];
    } else {
      assert Runs(t) == r + [[t[|t| - 1]]];
    }
  }

  /** `split_string_int(s)`. */
  method SplitStringInt(s: string) returns (items: seq<Item>)
    ensures items == Items(Runs(s))
  {
    items := [];
    var index := 0;
    var preType: Option<Kind> := None;
    var word := "";
    ghost var runs: seq<string> := [];
    for i := 0 to |s|
      invariant index == i
      invariant i == 0 ==> word == "" && items == [] && runs == []
      invariant i > 0 ==> Runs(s[..i]) == runs + [word] && preType == Some(KindOf(s[i - 1]))
      invariant items == Items(runs)
    {
      var c := s[i];
      if index == 0 {
        preType := Some(KindOf(c));
        word := [c];
        assert s[..1] == word;
      } else {
        RunsExtend(s, i, runs, word);
        if (preType == Some(Int) && IsDigit(c)) || (preType == Some(Str) && !IsDigit(c)) {
          word := word + [c];
        } else {
          ItemsAppend(runs, word);
          items := items + [ToItem(word)];
          runs := runs + [word];
          word := [c];
          preType := Some(KindOf(c));
        }
      }
      index := index + 1;
    }
    assert s[..|s|] == s;
    ItemsAppend(runs, word);
    items := items + [ToItem(word)];
  }
}
