/**
 * Worked instances of the model on small concrete inputs.
 */
module Examples {
  import opened Wrappers
  import opened Text
  import opened Sheet
  import opened Rewards
  import opened Cases

  /** A plain percentage loses its sign. */
  lemma PercentSignRemoved()
    ensures PercentText("42%") == "42"
  {
    PercentSignTrailing();
    assert "42"[0] == '4' && "42"[1] == '2';
    assert '4' !in Whitespace && '2' !in Whitespace;
    StripCharsUnchanged("42", Whitespace);
  }

  /** Stripping `%` from `"42%"` leaves `"42"`. */
  lemma PercentSignTrailing()
    ensures StripChars("42%", {'%'}) == "42"
  {
    var s := "42%";
    assert s[0] == '4' && s[1] == '2' && s[2] == '%' && s[..2] == "42";
    assert TrailingCount(s[..2], {'%'}) == 0;
  }

  /** A sign with whitespace outside it is kept: the percent signs go before the whitespace. */
  lemma PercentSignKeptInsideWhitespace()
    ensures PercentText(" 7 % ") == "7 %"
  {
    var s := " 7 % ";
    assert s[0] == ' ' && s[4] == ' ';
    StripCharsUnchanged(s, {'%'});
    WhitespaceAroundSign();
  }

  /** `str.strip()` of `" 7 % "` is `"7 %"`. */
  lemma WhitespaceAroundSign()
    ensures Strip(" 7 % ") == "7 %"
  {
    var s := " 7 % ";
    assert s[0] == ' ' && s[1] == '7' && s[1..] == "7 % ";
    assert LeadingCount(s[1..], Whitespace) == 0;
    var t := "7 % ";
    assert t[3] == ' ' && t[2] == '%' && t[..3] == "7 %";
    assert TrailingCount(t[..3], Whitespace) == 0;
  }

  /** Slot numbers past nine take two digits. */
  lemma GroupTwelve()
    ensures GroupName(12) == "group_12"
  {
  }

  /** The first two slots are named "group_1" and "group_2". */
  lemma FirstGroupNames()
    ensures GroupName(1) == "group_1" && GroupName(2) == "group_2"
  {
  }

  /**
   * The counter advances over a slot that yields nothing: when the first
   * slot (column 3) yields no group and the second (column 7) does, the
   * case holds "group_2" and no "group_1".
   */
  lemma SkippedSlotKeepsNumber(g: Grid, table: Table, p: Parsers)
    requires |g| >= 5 && Indexable(g) && 7 < |g[1]|
    requires SlotGroup(g, 3, table, p).None? && SlotGroup(g, 7, table, p).Some?
    ensures "group_1" !in ParsedCases(g, table, p)[g[0][0]].groups
    ensures "group_2" in ParsedCases(g, table, p)[g[0][0]].groups
  {
    FirstGroupNames();
    ParsedGroupAt(g, table, p, 3);
    ParsedGroupAt(g, table, p, 7);
  }

  /**
   * A six-cell rewards row with an empty column 5 is read: only columns 0,
   * 2, 3 and 5 are looked at, and its name is registered.
   */
  lemma NarrowRowRegisters()
    ensures var g := [["h"], ["h"], ["Sword", "", "42", "weapon", "", ""]];
      ReadableRows(g) && FindRewardData("Sword", RewardsTable(g)) == Some(RewardEntry("42", "weapon"))
  {
    var g := [["h"], ["h"], ["Sword", "", "42", "weapon", "", ""]];
    assert "42"[0] == '4' && "42"[1] == '2';
    assert '4' !in Whitespace && '2' !in Whitespace;
    StripCharsUnchanged("42", Whitespace);
    assert "weapon"[0] == 'w' && "weapon"[5] == 'n';
    assert 'w' !in Whitespace && 'n' !in Whitespace;
    StripCharsUnchanged("weapon", Whitespace);
    assert TableUpTo(g, 2) == map[];
  }
}
