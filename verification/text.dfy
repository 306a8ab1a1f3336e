/**
  The few Python `str` operations the core relies on, over `string` = `seq<char>`
  (one `char` per Unicode code point, as Python's `len` counts them):
  whitespace stripping, substring tests, `split` on one character, `join`,
  `replace` of one character, and `int()` on a decimal field.
 */
module Text {
  import opened Wrappers

  /** Python's `str.isspace()` for one code point: what `str.strip()` removes and `\s` matches. */
  predicate IsSpace(c: char) {
    || c == ' '
    || ('\t' <= c <= '\r')
    || ('\U{1C}' <= c <= '\U{1F}')
    || c == '\U{85}' || c == '\U{A0}' || c == '\U{1680}'
    || ('\U{2000}' <= c <= '\U{200A}')
    || c == '\U{2028}' || c == '\U{2029}' || c == '\U{202F}' || c == '\U{205F}'
    || c == '\U{3000}'  // the full-width (ideographic) space
  }

  predicate IsDigit(c: char) {
    '0' <= c <= '9'
  }

  /** Python's `s.startswith(prefix)`. */
  predicate StartsWith(s: string, prefix: string) {
    |prefix| <= |s| && s[..|prefix|] == prefix
  }

  /** Python's `sub in s`: `sub` occurs at some position of `s`. */
  function Contains(s: string, sub: string): (r: bool)
    ensures r <==> exists i | 0 <= i <= |s| :: StartsWith(s[i..], sub)
    decreases |s|
  {
    if StartsWith(s, sub) then
      assert s[0..] == s;
      true
    else if |s| == 0 then
      false
    else
      var r := Contains(s[1..], sub);
      assert forall i | 1 <= i <= |s| :: s[i..] == s[1..][i - 1..];
      r
  }

  /** The first position at or after `i` that is not whitespace, or `|s|`. */
  function SkipSpace(s: string, i: nat): (k: nat)
    requires i <= |s|
    ensures i <= k <= |s|
    ensures forall j | i <= j < k :: IsSpace(s[j])
    ensures k == |s| || !IsSpace(s[k])
    decreases |s| - i
  {
    if i < |s| && IsSpace(s[i]) then SkipSpace(s, i + 1) else i
  }

  /** The end of `s[lo..hi]` once its trailing whitespace is dropped. */
  function SkipSpaceBack(s: string, lo: nat, hi: nat): (k: nat)
    requires lo <= hi <= |s|
    ensures lo <= k <= hi
    ensures forall j | k <= j < hi :: IsSpace(s[j])
    ensures k == lo || !IsSpace(s[k - 1])
    decreases hi - lo
  {
    if lo < hi && IsSpace(s[hi - 1]) then SkipSpaceBack(s, lo, hi - 1) else hi
  }

  /**
    Python's `s.strip()`: the infix of `s` left after removing whitespace at
    both ends. `StripIsUnique` shows these clauses determine the result.
   */
  function Strip(s: string): (r: string)
    ensures exists lo :: StrippedAt(s, r, lo)
    ensures r == [] || (!IsSpace(r[0]) && !IsSpace(r[|r| - 1]))
    ensures r == [] <==> forall i | 0 <= i < |s| :: IsSpace(s[i])
    ensures s == [] || (!IsSpace(s[0]) && !IsSpace(s[|s| - 1])) ==> r == s
  {
    var lo := SkipSpace(s, 0);
    var hi := SkipSpaceBack(s, lo, |s|);
    assert StrippedAt(s, s[lo..hi], lo);
    s[lo..hi]
  }

  /** Inner whitespace stays: " a b " strips to "a b". */
  lemma StripKeepsInnerSpace()
    ensures Strip(" a b ") == "a b"
  {
    var s := " a b ";
    assert s[1..4] == "a b";
    assert StrippedAt(s, "a b", 1);
    StripIsUnique(s, "a b", 1);
  }

  /** `r` occurs in `s` starting at position `lo`. */
  predicate InfixAt(s: string, r: string, lo: int) {
    0 <= lo && lo + |r| <= |s| && s[lo..lo + |r|] == r
  }

  /** `r` is `s` with whitespace removed before position `lo` and after `r`. */
  predicate StrippedAt(s: string, r: string, lo: int) {
    && InfixAt(s, r, lo)
    && (forall i | 0 <= i < lo :: IsSpace(s[i]))
    && (forall i | lo + |r| <= i < |s| :: IsSpace(s[i]))
  }

  /**
    Only one text is `s` with whitespace removed at both ends and none left at
    either end of it, so `Strip`'s contract fixes its result.
   */
  lemma StripIsUnique(s: string, r: string, lo: int)
    requires StrippedAt(s, r, lo)
    requires r == [] || (!IsSpace(r[0]) && !IsSpace(r[|r| - 1]))
    ensures Strip(s) == r
  {
    var t := Strip(s);
    if r == [] {
      forall i | 0 <= i < |s| ensures IsSpace(s[i]) {
        assert i < lo || lo + |r| <= i;
      }
    } else {
      var lo' :| StrippedAt(s, t, lo');
      StrippedAtUnique(s, r, lo, t, lo');
    }
  }

  /** `Strip(s)` is exactly the text that its contract describes: both directions. */
  lemma StripCharacterized(s: string, r: string)
    ensures Strip(s) == r <==>
      (exists lo :: StrippedAt(s, r, lo)) && (r == [] || (!IsSpace(r[0]) && !IsSpace(r[|r| - 1])))
  {
    if (exists lo :: StrippedAt(s, r, lo)) && (r == [] || (!IsSpace(r[0]) && !IsSpace(r[|r| - 1]))) {
      var lo :| StrippedAt(s, r, lo);
      StripIsUnique(s, r, lo);
    }
  }

  /** Two non-empty strippings of `s` whose ends are not whitespace are the same text. */
  lemma StrippedAtUnique(s: string, r: string, lo: int, t: string, lo': int)
    requires StrippedAt(s, r, lo) && r != [] && !IsSpace(r[0]) && !IsSpace(r[|r| - 1])
    requires StrippedAt(s, t, lo') && (t == [] || (!IsSpace(t[0]) && !IsSpace(t[|t| - 1])))
    ensures t == r
  {
    assert s[lo] == r[0] && s[lo + |r| - 1] == r[|r| - 1];
    assert t != [] by { assert !IsSpace(s[lo]); }
    assert s[lo'] == t[0] && s[lo' + |t| - 1] == t[|t| - 1];
    assert !IsSpace(s[lo]) && !IsSpace(s[lo']);
    assert lo' == lo;
    assert !IsSpace(s[lo + |r| - 1]) && !IsSpace(s[lo' + |t| - 1]);
    assert lo' + |t| == lo + |r|;
  }

  /** An infix of a prefix of `s` is an infix of `s` at the same place, and holds only characters of the prefix. */
  lemma InfixOfPrefix(s: string, head: string, r: string, lo: int)
    requires |head| <= |s| && head == s[..|head|] && InfixAt(head, r, lo)
    ensures InfixAt(s, r, lo)
    ensures forall c | c in r :: c in head
  {
    forall c | c in r ensures c in head {
      var i :| 0 <= i < |r| && r[i] == c;
      assert head[lo + i] == c;
    }
  }

  /** Python's `s.split(c)[0]`: the text before the first `c`, or all of `s`. */
  function BeforeFirst(s: string, c: char): (r: string)
    ensures |r| <= |s| && r == s[..|r|]
    ensures c !in r
    ensures |r| < |s| <==> c in s
    ensures |r| < |s| ==> s[|r|] == c
  {
    if |s| == 0 || s[0] == c then [] else [s[0]] + BeforeFirst(s[1..], c)
  }

  /** Python's `sep.join(parts)`. */
  function Join(parts: seq<string>, sep: string): string {
    if |parts| == 0 then []
    else if |parts| == 1 then parts[0]
    else parts[0] + sep + Join(parts[1..], sep)
  }

  /**
    Python's `s.split(sep)` for a one-character separator: one more field than
    there are separators, no field contains the separator, and joining the
    fields back with the separator gives `s` again.
   */
  function Split(s: string, sep: char): (parts: seq<string>)
    ensures |parts| == multiset(s)[sep] + 1
    ensures parts[0] == BeforeFirst(s, sep)
    ensures forall i | 0 <= i < |parts| :: sep !in parts[i]
    ensures Join(parts, [sep]) == s
    decreases |s|
  {
    var head := BeforeFirst(s, sep);
    if |head| == |s| then
      assert multiset(s)[sep] == 0;
      [s]
    else
      var rest := s[|head| + 1..];
      var tail := Split(rest, sep);
      SplitStep(s, head, rest, sep, tail);
      [head] + tail
  }

  /** One field of `Split`: `s` is `head`, the separator, then the text `tail` splits. */
  lemma SplitStep(s: string, head: string, rest: string, sep: char, tail: seq<string>)
    requires |head| < |s| && head == s[..|head|] && s[|head|] == sep && rest == s[|head| + 1..]
    requires sep !in head && |tail| >= 1
    requires |tail| == multiset(rest)[sep] + 1 && Join(tail, [sep]) == rest
    ensures |[head] + tail| == multiset(s)[sep] + 1
    ensures Join([head] + tail, [sep]) == s
  {
    assert s == head + [sep] + rest;
    assert multiset(head)[sep] == 0;
    JoinCons(head, tail, [sep]);
  }

  /** Python's `s.replace(c, rep)` for a one-character `c`. */
  function Replace(s: string, c: char, rep: string): (r: string)
    ensures c !in s ==> r == s
    ensures c !in rep ==> c !in r
  {
    if |s| == 0 then []
    else
      assert s == [s[0]] + s[1..];
      (if s[0] == c then rep else [s[0]]) + Replace(s[1..], c, rep)
  }

  lemma {:induction false} ReplaceAppend(a: string, b: string, c: char, rep: string)
    ensures Replace(a + b, c, rep) == Replace(a, c, rep) + Replace(b, c, rep)
    decreases |a|
  {
    if |a| > 0 {
      assert (a + b)[1..] == a[1..] + b;
      ReplaceAppend(a[1..], b, c, rep);
    } else {
      assert a + b == b;
    }
  }

  /**
    Replacing every `c` by `rep` is the same as splitting at `c` and joining
    the fields with `rep`.
   */
  lemma {:induction false} ReplaceIsSplitJoin(s: string, c: char, rep: string)
    ensures Replace(s, c, rep) == Join(Split(s, c), rep)
    decreases |s|
  {
    var head := BeforeFirst(s, c);
    if |head| < |s| {
      var rest := s[|head| + 1..];
      ReplaceIsSplitJoin(rest, c, rep);
      SplitUnfold(s, c);
      assert s == head + [c] + rest;
      SplitJoinStep(head, rest, c, rep, Split(rest, c));
    } else {
      assert Split(s, c) == [s];
    }
  }

  /** One separator step: the text is `head`, then `c`, then `rest`. */
  lemma SplitJoinStep(head: string, rest: string, c: char, rep: string, tail: seq<string>)
    requires c !in head && |tail| >= 1
    requires Replace(rest, c, rep) == Join(tail, rep)
    ensures Replace(head + [c] + rest, c, rep) == Join([head] + tail, rep)
  {
    calc {
      Replace(head + [c] + rest, c, rep);
      { assert head + [c] + rest == head + ([c] + rest); }
      Replace(head + ([c] + rest), c, rep);
      { ReplaceAfterPlain(head, [c] + rest, c, rep); }
      head + Replace([c] + rest, c, rep);
      { ReplaceSeparatorFirst(rest, c, rep); }
      head + (rep + Join(tail, rep));
      head + rep + Join(tail, rep);
      { JoinCons(head, tail, rep); }
      Join([head] + tail, rep);
    }
  }

  lemma ReplaceSeparatorFirst(rest: string, c: char, rep: string)
    ensures Replace([c] + rest, c, rep) == rep + Replace(rest, c, rep)
  {
    assert ([c] + rest)[0] == c && ([c] + rest)[1..] == rest;
  }

  lemma ReplaceAfterPlain(head: string, after: string, c: char, rep: string)
    requires c !in head
    ensures Replace(head + after, c, rep) == head + Replace(after, c, rep)
  {
    ReplaceAppend(head, after, c, rep);
  }

  lemma SplitUnfold(s: string, c: char)
    requires c in s
    ensures var head := BeforeFirst(s, c);
      Split(s, c) == [head] + Split(s[|head| + 1..], c)
  {
  }

  lemma JoinCons(head: string, tail: seq<string>, sep: string)
    requires |tail| >= 1
    ensures Join([head] + tail, sep) == head + sep + Join(tail, sep)
  {
    assert ([head] + tail)[1..] == tail;
  }

  predicate IsDigits(ds: string) {
    |ds| > 0 && forall i | 0 <= i < |ds| :: IsDigit(ds[i])
  }

  /** The value of a run of decimal digits, most significant first. */
  function DigitsValue(ds: string): nat
    requires forall i | 0 <= i < |ds| :: IsDigit(ds[i])
  {
    if |ds| == 0 then 0
    else
      var last := ds[|ds| - 1];
      assert IsDigit(last);
      DigitsValue(ds[..|ds| - 1]) * 10 + (last as int - '0' as int)
  }

  /**
    Digits in which a single `_` may stand between two digits, the grouping
    Python's `int()` accepts ("1_000").
   */
  predicate IsGroupedDigits(t: string) {
    |t| > 0 && forall i | 0 <= i < |t| :: DigitOrSeparator(t, i)
  }

  /** Position `i` of `t` holds a digit, or a `_` with a digit on each side. */
  predicate DigitOrSeparator(t: string, i: int)
    requires 0 <= i < |t|
  {
    IsDigit(t[i]) || (t[i] == '_' && 0 < i < |t| - 1 && IsDigit(t[i - 1]) && IsDigit(t[i + 1]))
  }

  /** `t` with its `_` characters removed. */
  function DropUnderscores(t: string): (r: string)
    ensures (forall i | 0 <= i < |t| :: IsDigit(t[i]) || t[i] == '_') ==> forall i | 0 <= i < |r| :: IsDigit(r[i])
    ensures '_' !in t ==> r == t
  {
    if t == [] then []
    else
      var n := |t| - 1;
      var init := DropUnderscores(t[..n]);
      assert t[..n] + [t[n]] == t;
      init + (if t[n] == '_' then [] else [t[n]])
  }

  /** The decimal value of digits and `_` separators, read most significant first; a separator adds nothing. */
  function GroupedValue(t: string): nat
    requires DigitsOrSeparators(t)
  {
    if t == [] then 0
    else
      var n := |t| - 1;
      if t[n] == '_' then GroupedValue(t[..n])
      else GroupedValue(t[..n]) * 10 + (t[n] as int - '0' as int)
  }

  predicate DigitsOrSeparators(t: string) {
    forall i | 0 <= i < |t| :: IsDigit(t[i]) || t[i] == '_'
  }

  lemma GroupedDigitsChars(t: string)
    requires IsGroupedDigits(t)
    ensures DigitsOrSeparators(t)
  {
    forall i | 0 <= i < |t| ensures IsDigit(t[i]) || t[i] == '_' {
      assert DigitOrSeparator(t, i);
    }
  }

  /** One more digit shifts the value of the digits before it. */
  lemma DigitsValueSnoc(d: string, c: char)
    requires forall i | 0 <= i < |d| :: IsDigit(d[i])
    requires IsDigit(c)
    ensures DigitsValue(d + [c]) == DigitsValue(d) * 10 + (c as int - '0' as int)
  {
    assert (d + [c])[..|d|] == d;
  }

  /** Reading grouped digits is reading the digits left once every `_` is dropped. */
  lemma {:induction false} GroupedValueIsDropped(t: string)
    requires DigitsOrSeparators(t)
    ensures GroupedValue(t) == DigitsValue(DropUnderscores(t))
  {
    if t != [] {
      var n := |t| - 1;
      var init := t[..n];
      assert DigitsOrSeparators(init) by {
        assert forall i | 0 <= i < n :: init[i] == t[i];
      }
      GroupedValueIsDropped(init);
      var d := DropUnderscores(init);
      assert DropUnderscores(t) == d + (if t[n] == '_' then [] else [t[n]]);
      if t[n] != '_' {
        assert IsDigit(t[n]);
        assert forall i | 0 <= i < |d| :: IsDigit(d[i]);
        DigitsValueSnoc(d, t[n]);
      } else {
        assert DropUnderscores(t) == d;
      }
    }
  }


  /**
    Python's `int(s)` on a decimal field: surrounding whitespace ignored, an
    optional sign, then ASCII digits, possibly grouped by single `_`; anything
    else raises, modelled as `None`.
   */
  function ParseInt(s: string): Option<int> {
    ParseSigned(Strip(s))
  }

  /** A stripped field: an optional sign, then grouped digits. */
  function ParseSigned(t: string): Option<int> {
    if |t| > 0 && t[0] == '-' then
      match ParseUnsigned(t[1..])
      case Some(v) => Some(0 - v)
      case None => None
    else if |t| > 0 && t[0] == '+' then ParseUnsigned(t[1..])
    else ParseUnsigned(t)
  }

  function ParseUnsigned(t: string): Option<nat> {
    if IsGroupedDigits(t) then
      GroupedDigitsChars(t);
      Some(GroupedValue(t))
    else None
  }

  /** "1_8" reads as 18; a doubled, leading or trailing `_` raises. */
  lemma ParseIntUnderscores()
    ensures ParseInt("1_8") == Some(18)
    ensures ParseInt("1__8") == None
    ensures ParseInt("_18") == None && ParseInt("18_") == None
  {
    ParseIntGroupedPair();
    ParseIntMisplacedUnderscore();
  }

  lemma ParseIntGroupedPair()
    ensures ParseInt("1_8") == Some(18)
  {
    assert Strip("1_8") == "1_8";
    assert IsGroupedDigits("1_8") by {
      assert DigitOrSeparator("1_8", 0) && DigitOrSeparator("1_8", 1) && DigitOrSeparator("1_8", 2);
    }
    GroupedDigitsChars("1_8");
    GroupedValueIsDropped("1_8");
    DropUnderscoresPair();
    DigitsValuePair();
  }

  lemma DropUnderscoresPair()
    ensures DropUnderscores("1_8") == "18"
  {
    assert '_' !in "1";
    calc {
      DropUnderscores("1_8");
      { assert "1_8"[..2] == "1_"; }
      DropUnderscores("1_") + "8";
      { assert "1_"[..1] == "1"; }
      DropUnderscores("1") + "8";
      "18";
    }
  }

  lemma DigitsValuePair()
    ensures DigitsValue("18") == 18
  {
    assert "18"[..1] == "1" && "1"[..0] == [];
  }

  lemma ParseIntMisplacedUnderscore()
    ensures ParseInt("1__8") == None
    ensures ParseInt("_18") == None && ParseInt("18_") == None
  {
    assert Strip("1__8") == "1__8";
    assert !IsGroupedDigits("1__8") by {
      assert !DigitOrSeparator("1__8", 1);
    }
    assert Strip("_18") == "_18";
    assert !IsGroupedDigits("_18") by {
      assert !DigitOrSeparator("_18", 0);
    }
    assert Strip("18_") == "18_";
    assert !IsGroupedDigits("18_") by {
      assert !DigitOrSeparator("18_", 2);
    }
  }

  /** `int()` of a plain run of digits is its decimal value. */
  lemma ParseIntDigits(ds: string)
    requires IsDigits(ds)
    ensures ParseInt(ds) == Some(DigitsValue(ds))
  {
    assert !IsSpace(ds[0]) && !IsSpace(ds[|ds| - 1]);
    assert Strip(ds) == ds;
    assert ds[0] != '-' && ds[0] != '+' by {
      assert IsDigit(ds[0]);
    }
    ParseUnsignedDigits(ds);
  }

  lemma ParseUnsignedDigits(ds: string)
    requires IsDigits(ds)
    ensures ParseUnsigned(ds) == Some(DigitsValue(ds))
  {
    assert IsGroupedDigits(ds) by {
      forall i | 0 <= i < |ds| ensures DigitOrSeparator(ds, i) {
        assert IsDigit(ds[i]);
      }
    }
    GroupedValuePlain(ds);
  }

  lemma GroupedValuePlain(ds: string)
    requires IsDigits(ds)
    ensures DigitsOrSeparators(ds) && GroupedValue(ds) == DigitsValue(ds)
  {
    assert '_' !in ds by {
      forall i | 0 <= i < |ds| ensures ds[i] != '_' {
        assert IsDigit(ds[i]);
      }
    }
    GroupedValueIsDropped(ds);
  }

}
