/** `HomeWidgetProvider.formatCurrency`: an `Int` rendered as "Rp" followed by
    its decimal string with a "." inserted every three characters counted from
    the right. The source does this as one chain, reverse, `chunked(3)`,
    `joinToString(".")`, reverse; `Group` is the same rule stated directly,
    right to left, and the lemmas below connect the two and describe the
    result. The chain sees the minus sign of a negative amount as one more
    character, and the model keeps that behaviour. */
module Currency {
  import opened Text
  import opened Decimal

  const PREFIX: string := "Rp"
  const SEPARATOR: char := '.'
  const GROUP_SIZE: nat := 3

  /** `formatCurrency(amount)`, the chain exactly as the source writes it; it
      starts with the prefix "Rp". What follows the prefix is described by
      `FormatCurrencyIsGrouping`. */
  function FormatCurrency(amount: Int32): (r: string)
    ensures |PREFIX| <= |r| && r[..|PREFIX|] == PREFIX
  {
    PREFIX + Reverse(JoinToString(Chunked(Reverse(ToString(amount)), GROUP_SIZE), [SEPARATOR]))
  }

  /** After the prefix comes the grouped `amount.toString()`. */
  lemma FormatCurrencyIsGrouping(amount: Int32)
    ensures FormatCurrency(amount)[|PREFIX|..] == Group(ToString(amount))
  {
    PipelineIsGroup(ToString(amount));
  }

  /** Right-to-left grouping by threes: the last three characters form a group,
      and whatever lies before them is grouped the same way. */
  function Group(s: string): (r: string)
    ensures |r| == |s| + (if s == [] then 0 else (|s| - 1) / 3)
    ensures s != [] ==> r[0] == s[0] && r[|r| - 1] == s[|s| - 1]
    decreases |s|
  {
    if |s| <= 3 then s else Group(s[..|s| - 3]) + [SEPARATOR] + s[|s| - 3..]
  }

  /** The groups `Group` separates, left to right. */
  function LeftGroups(s: string): (g: seq<string>)
    decreases |s|
  {
    if |s| <= 3 then [s] else LeftGroups(s[..|s| - 3]) + [s[|s| - 3..]]
  }

  /** Proof step: a full first piece is split off by `chunked`. */
  lemma {:induction false} ChunkedFirst(a: string, b: string)
    requires |a| == GROUP_SIZE && b != []
    ensures Chunked(a + b, GROUP_SIZE) == [a] + Chunked(b, GROUP_SIZE)
  {
    assert (a + b)[..GROUP_SIZE] == a;
    assert (a + b)[GROUP_SIZE..] == b;
  }

  /** The reverse/chunk/join/reverse chain and right-to-left grouping agree on
      every string. */
  lemma {:induction false} PipelineIsGroup(s: string)
    ensures Reverse(JoinToString(Chunked(Reverse(s), GROUP_SIZE), [SEPARATOR])) == Group(s)
    decreases |s|
  {
    if |s| == 0 {
    } else if |s| <= 3 {
      ReverseInvolution(s);
    } else {
      var p, t := s[..|s| - 3], s[|s| - 3..];
      assert s == p + t;
      ReverseAppend(p, t);
      var rt, rp := Reverse(t), Reverse(p);
      ChunkedFirst(rt, rp);
      var rest := Chunked(rp, GROUP_SIZE);
      assert rest != [];
      var chunks := [rt] + rest;
      assert chunks[0] == rt && chunks[1..] == rest;
      var j := JoinToString(rest, [SEPARATOR]);
      assert JoinToString(chunks, [SEPARATOR]) == rt + ([SEPARATOR] + j);
      ReverseAppend(rt, [SEPARATOR] + j);
      ReverseAppend([SEPARATOR], j);
      ReverseInvolution(t);
      PipelineIsGroup(p);
      assert Reverse([SEPARATOR]) == [SEPARATOR];
    }
  }

  /** Grouping only inserts separators before groups of three: deleting them
      gives back the input, with no character lost, added or reordered. */
  lemma {:induction false} GroupRemoveSeparators(s: string)
    requires SEPARATOR !in s
    ensures RemoveAll(Group(s), SEPARATOR) == s
    decreases |s|
  {
    if |s| <= 3 {
      RemoveAllAbsent(s, SEPARATOR);
    } else {
      var p, t := s[..|s| - 3], s[|s| - 3..];
      assert s == p + t;
      assert SEPARATOR !in p && SEPARATOR !in t;
      var gp := Group(p);
      GroupUnfold(s);
      GroupRemoveSeparators(p);
      RemoveAllAppend(gp + [SEPARATOR], t, SEPARATOR);
      RemoveAllAppend(gp, [SEPARATOR], SEPARATOR);
      RemoveAllAbsent(t, SEPARATOR);
      RemoveAllSingle(SEPARATOR);
      assert RemoveAll(Group(s), SEPARATOR) == (p + []) + t;
    }
  }

  /** A non-empty separator-free string of length n gets (n - 1) / 3 separators. */
  lemma {:induction false} GroupCountSeparators(s: string)
    requires SEPARATOR !in s && s != []
    ensures Count(Group(s), SEPARATOR) == (|s| - 1) / 3
    decreases |s|
  {
    if |s| <= 3 {
      CountAbsent(s, SEPARATOR);
    } else {
      var p, t := s[..|s| - 3], s[|s| - 3..];
      assert s == p + t;
      var gp := Group(p);
      GroupUnfold(s);
      GroupCountSeparators(p);
      CountAppend(gp + [SEPARATOR], t, SEPARATOR);
      CountAppend(gp, [SEPARATOR], SEPARATOR);
      CountAbsent(t, SEPARATOR);
      CountSingle(SEPARATOR);
    }
  }

  /** `Group` joins the groups of `LeftGroups` with the separator, and those
      groups are: a leftmost one of 1 to 3 characters, then groups of exactly
      3, together spelling the input. */
  lemma {:induction false} LeftGroupsShape(s: string)
    requires s != []
    ensures var g := LeftGroups(s);
      && |g| == (|s| - 1) / 3 + 1
      && 1 <= |g[0]| <= 3
      && (forall i :: 1 <= i < |g| ==> |g[i]| == 3)
      && Concat(g) == s
      && Group(s) == JoinToString(g, [SEPARATOR])
    decreases |s|
  {
    var g := LeftGroups(s);
    if |s| <= 3 {
      assert Concat(g) == s + [];
    } else {
      var p, t := s[..|s| - 3], s[|s| - 3..];
      assert s == p + t;
      LeftGroupsShape(p);
      var gp := LeftGroups(p);
      assert g == gp + [t];
      assert g[0] == gp[0];
      assert forall i :: 1 <= i < |g| - 1 ==> g[i] == gp[i];
      ConcatSnoc(gp, t);
      JoinSnoc(gp, t, [SEPARATOR]);
    }
  }

  /** Splitting the grouped form at the separators yields exactly the groups:
      a leftmost group of 1 to 3 characters, every later group of exactly 3,
      together spelling the input; the result neither starts nor ends with a
      separator. */
  lemma {:induction false} GroupShape(s: string)
    requires SEPARATOR !in s && s != []
    ensures var r := Group(s);
      var g := Split(r, SEPARATOR);
      && r[0] != SEPARATOR && r[|r| - 1] != SEPARATOR
      && |g| == (|s| - 1) / 3 + 1
      && 1 <= |g[0]| <= 3
      && (forall i :: 1 <= i < |g| ==> |g[i]| == 3)
      && Concat(g) == s
  {
    LeftGroupsShape(s);
    var g := LeftGroups(s);
    forall i | 0 <= i < |g|
      ensures SEPARATOR !in g[i]
    {
      LeftGroupsIn(s, i);
    }
    SplitJoin(g, SEPARATOR);
  }

  /** Every group is a piece of the input. */
  lemma {:induction false} LeftGroupsIn(s: string, i: nat)
    requires i < |LeftGroups(s)|
    ensures forall c :: c in LeftGroups(s)[i] ==> c in s
    decreases |s|
  {
    if |s| > 3 {
      var p := s[..|s| - 3];
      if i < |LeftGroups(p)| {
        LeftGroupsIn(p, i);
        assert forall c :: c in p ==> c in s;
      } else {
        assert forall c :: c in s[|s| - 3..] ==> c in s;
      }
    }
  }

  /** A sign character in front of a digit string whose length is a multiple
      of 3 becomes a group of its own. */
  lemma {:induction false} GroupSignAlone(c: char, d: string)
    requires d != [] && |d| % 3 == 0
    ensures Group([c] + d) == [c, SEPARATOR] + Group(d)
    decreases |d|
  {
    if |d| == 3 {
      SignBeforeGroup(c, [], d);
      assert [c] + [] + d == [c] + d;
      assert Group([c] + []) == [c];
    } else {
      var p, t := d[..|d| - 3], d[|d| - 3..];
      assert [c] + p + t == [c] + d;
      assert |p| % 3 == 0 && p != [];
      GroupSignAlone(c, p);
      SignBeforeGroup(c, p, t);
      GroupUnfold(d);
      AppendRegroup([c, SEPARATOR], Group(p), [SEPARATOR], t);
    }
  }

  /** Proof step: one step of grouping a sign followed by `p + t`, with `t` the last group. */
  lemma SignBeforeGroup(c: char, p: string, t: string)
    requires |t| == 3
    ensures Group([c] + p + t) == Group([c] + p) + [SEPARATOR] + t
  {
    var s := [c] + p + t;
    assert s[..|s| - 3] == [c] + p;
    assert s[|s| - 3..] == t;
    GroupUnfold(s);
  }

  /** Proof step: one unfolding of `Group`. */
  lemma GroupUnfold(s: string)
    requires |s| > 3
    ensures Group(s) == Group(s[..|s| - 3]) + [SEPARATOR] + s[|s| - 3..]
  {
  }

  /** A sign character in front of a digit string whose length is not a
      multiple of 3 joins the leftmost group. */
  lemma {:induction false} GroupSignJoins(c: char, d: string)
    requires |d| % 3 != 0
    ensures Group([c] + d) == [c] + Group(d)
    decreases |d|
  {
    var s := [c] + d;
    if |d| > 3 {
      var p, t := d[..|d| - 3], d[|d| - 3..];
      assert s[|s| - 3..] == t;
      assert s[..|s| - 3] == [c] + p;
      assert |p| == |d| - 3;
      GroupUnfold(s);
      GroupUnfold(d);
      GroupSignJoins(c, p);
      var gp := Group(p);
      AppendRegroup([c], gp, [SEPARATOR], t);
    } else {
      assert |s| <= 3;
    }
  }

  /** For `amount >= 0`: deleting the separators after "Rp" gives exactly the
      decimal digits of `amount`, which read back as `amount`; the separated
      groups have the shape of `GroupShape`; there are (len - 1) / 3
      separators, len being the number of digits. */
  lemma FormatNonNegative(amount: Int32)
    requires amount >= 0
    ensures var r := FormatCurrency(amount); var d := Digits(amount);
      var g := Split(r[|PREFIX|..], SEPARATOR);
      && r[..|PREFIX|] == PREFIX
      && RemoveAll(r[|PREFIX|..], SEPARATOR) == d
      && Value(RemoveAll(r[|PREFIX|..], SEPARATOR)) == amount
      && Count(r[|PREFIX|..], SEPARATOR) == (|d| - 1) / 3
      && r[|PREFIX|] != SEPARATOR && r[|r| - 1] != SEPARATOR
      && |g| == (|d| - 1) / 3 + 1
      && 1 <= |g[0]| <= 3
      && (forall i :: 1 <= i < |g| ==> |g[i]| == 3)
      && Concat(g) == d
  {
    FormatCurrencyIsGrouping(amount);
    var d := Digits(amount);
    GroupRemoveSeparators(d);
    GroupCountSeparators(d);
    GroupShape(d);
    ValueOfDigits(amount);
  }

  /** For a negative amount the minus sign is chunked like a digit: when the
      digit count is a multiple of 3 it forms a group of its own and the text
      holds "-.", otherwise it sits in front of a correct grouping. */
  lemma FormatNegative(amount: Int32)
    requires amount < 0
    ensures var d := Digits(-(amount as int));
      FormatCurrency(amount) ==
        if |d| % 3 == 0 then PREFIX + "-." + Group(d) else PREFIX + "-" + Group(d)
  {
    FormatCurrencyIsGrouping(amount);
    var d := Digits(-(amount as int));
    if |d| % 3 == 0 {
      GroupSignAlone('-', d);
    } else {
      GroupSignJoins('-', d);
    }
  }

  /** Whatever the sign, deleting the separators after "Rp" gives back
      `amount.toString()`, and reading that back gives `amount`: the malformed
      output for negative amounts loses no information. */
  lemma FormatCurrencyRoundTrip(amount: Int32)
    ensures var rest := FormatCurrency(amount)[|PREFIX|..];
      && RemoveAll(rest, SEPARATOR) == ToString(amount)
      && IsSignedDecimal(RemoveAll(rest, SEPARATOR))
      && SignedValue(RemoveAll(rest, SEPARATOR)) == amount
  {
    FormatCurrencyIsGrouping(amount);
    GroupRemoveSeparators(ToString(amount));
  }

  /** Worked example: 0 becomes "Rp0". */
  lemma ExampleZero()
    ensures FormatCurrency(0) == "Rp0"
  {
    Example(0, "0", "0");
  }

  /** Worked example: 50000 becomes "Rp50.000". */
  lemma ExampleFiftyThousand()
    ensures FormatCurrency(50000) == "Rp50.000"
  {
    assert Digits(50) == "50";
    assert Digits(5000) == "5000";
    assert Digits(50000) == "50000";
    GroupUnfold("50000");
    Example(50000, "50000", "50.000");
  }

  /** Worked example: 1234567 becomes "Rp1.234.567". */
  lemma ExampleMillions()
    ensures FormatCurrency(1234567) == "Rp1.234.567"
  {
    DigitsMillions();
    assert ToString(1234567) == Digits(1234567);
    GroupMillions();
    Example(1234567, "1234567", "1.234.567");
    assert PREFIX + "1.234.567" == "Rp1.234.567";
  }

  lemma DigitsThousands()
    ensures Digits(1234) == "1234"
  {
    assert Digits(12) == "12";
  }

  lemma DigitsMillions()
    ensures Digits(1234567) == "1234567"
  {
    DigitsThousands();
    assert Digits(123456) == "123456";
  }

  lemma GroupMillions()
    ensures Group("1234567") == "1.234.567"
  {
    GroupUnfold("1234");
    GroupUnfold("1234567");
    assert "1234567"[..4] == "1234";
  }

  /** Worked example of the sign forming its own group: -123 becomes "Rp-.123". */
  lemma ExampleNegativeSignAlone()
    ensures FormatCurrency(-123) == "Rp-.123"
  {
    assert Digits(123) == "123";
    GroupUnfold("-123");
    Example(-123, "-123", "-.123");
  }

  /** Worked example of the sign joining the leftmost group: -1234 becomes "Rp-1.234". */
  lemma ExampleNegativeSignJoins()
    ensures FormatCurrency(-1234) == "Rp-1.234"
  {
    DigitsThousands();
    GroupUnfold("-1234");
    Example(-1234, "-1234", "-1.234");
  }

  lemma Example(amount: Int32, text: string, grouped: string)
    requires ToString(amount) == text && Group(text) == grouped
    ensures FormatCurrency(amount) == PREFIX + grouped
  {
    FormatCurrencyIsGrouping(amount);
    var r := FormatCurrency(amount);
    assert r == r[..|PREFIX|] + r[|PREFIX|..];
  }
}
