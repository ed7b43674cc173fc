/**
 * The parse of m3u8_attr_parse worked out on small attribute lists, each a
 * reduced form of a case the library's test suite exercises: a repeated key,
 * a comma inside a quoted value, and a tag prefix before keys that overlap.
 */
module AttrExamples {
  import opened Wrappers
  import opened AttrMatch
  import opened Attr

  // ---------------------------------------------------------------------
  // A repeated key

  /** An attribute list that repeats a key, with quoted values. */
  const DuplicateKeys := "K=\"v\",K=\"v\""

  /** The first match in DuplicateKeys is its first attribute, and nothing matches at its comma. */
  lemma DuplicateKeysFirst()
    ensures MatchAt(DuplicateKeys, 0) == Some(Match(0, 1, 5))
    ensures MatchAt(DuplicateKeys, 5).None?
  {
    var s := DuplicateKeys;
    assert KeyEnd(s, 5) == 5;
    assert KeyEnd(s, 1) == 1 && KeyEnd(s, 0) == 1;
    assert RunEnd(s, 5) == 5 && RunEnd(s, 4) == 5 && RunEnd(s, 3) == 5 && RunEnd(s, 2) == 5;
    assert FindChar(s, '"', 4) == Some(4) && FindChar(s, '"', 3) == Some(4);
  }

  /** The second match in DuplicateKeys is its second attribute. */
  lemma DuplicateKeysSecond()
    ensures MatchAt(DuplicateKeys, 6) == Some(Match(6, 7, 11))
  {
    var s := DuplicateKeys;
    assert KeyEnd(s, 7) == 7 && KeyEnd(s, 6) == 7;
    assert RunEnd(s, 11) == 11 && RunEnd(s, 10) == 11 && RunEnd(s, 9) == 11 && RunEnd(s, 8) == 11;
    assert FindChar(s, '"', 10) == Some(10) && FindChar(s, '"', 9) == Some(10);
  }

  /** Both attributes of DuplicateKeys stand for key K and the value v, unquoted. */
  lemma DuplicateKeysEntries()
    ensures EntryOf(DuplicateKeys, Match(0, 1, 5)) == Attribute("K", "v")
    ensures EntryOf(DuplicateKeys, Match(6, 7, 11)) == Attribute("K", "v")
  {
    var s := DuplicateKeys;
    assert s[0..1] == s[6..7] == "K";
    assert s[2..5] == s[8..11] == "\"v\"";
    SnipOneChar("\"v\"", '"');
  }

  /**
   * Two attributes under the same key: both are parsed, in order, and each
   * value comes out with its double quotes snipped.
   */
  lemma DuplicateKeysParsed()
    ensures Entries(DuplicateKeys, 0) == [Attribute("K", "v"), Attribute("K", "v")]
  {
    var s := DuplicateKeys;
    DuplicateKeysEntries();
    DuplicateKeysFirst();
    DuplicateKeysSecond();
    EntriesAt(s, 0, Match(0, 1, 5));
    assert NextMatch(s, 5) == NextMatch(s, 6);
    EntriesAt(s, 5, Match(6, 7, 11));
    assert Entries(s, 11) == [];
  }

  // ---------------------------------------------------------------------
  // A comma inside a quoted value

  /** A quoted value holding a comma, then an unquoted one. */
  const CommaInQuotes := "C=\"a,b\",R=1"

  /** The first match runs to the closing quote, past the comma inside; none starts at the comma after it. */
  lemma CommaInQuotesFirst()
    ensures MatchAt(CommaInQuotes, 0) == Some(Match(0, 1, 7))
    ensures MatchAt(CommaInQuotes, 7).None?
  {
    var s := CommaInQuotes;
    assert KeyEnd(s, 7) == 7;
    assert KeyEnd(s, 1) == 1 && KeyEnd(s, 0) == 1;
    assert RunEnd(s, 4) == 4 && RunEnd(s, 3) == 4 && RunEnd(s, 2) == 4;
    assert FindChar(s, '"', 6) == Some(6) && FindChar(s, '"', 5) == Some(6);
    assert FindChar(s, '"', 4) == Some(6) && FindChar(s, '"', 3) == Some(6);
  }

  /** The second match is the unquoted attribute at the end. */
  lemma CommaInQuotesSecond()
    ensures MatchAt(CommaInQuotes, 8) == Some(Match(8, 9, 11))
  {
    var s := CommaInQuotes;
    assert KeyEnd(s, 9) == 9 && KeyEnd(s, 8) == 9;
    assert RunEnd(s, 11) == 11 && RunEnd(s, 10) == 11;
    assert QuotedEnd(s, 10) == 10;
  }

  /** The quoted attribute of CommaInQuotes keeps its comma and loses its quotes. */
  lemma CommaInQuotesQuoted()
    ensures EntryOf(CommaInQuotes, Match(0, 1, 7)) == Attribute("C", "a,b")
  {
    var s := CommaInQuotes;
    assert s[0..1] == "C";
    var v := s[2..7];
    assert v == "\"" + ("a,b" + "\"");
    SnipOneChar(v, '"');
    WithoutConcat("\"", "a,b" + "\"", '"');
    WithoutConcat("a,b", "\"", '"');
    WithoutAbsent("a,b", '"');
    assert Without("\"", '"') == [];
  }

  /** The unquoted attribute of CommaInQuotes is taken as it stands. */
  lemma CommaInQuotesUnquoted()
    ensures EntryOf(CommaInQuotes, Match(8, 9, 11)) == Attribute("R", "1")
  {
    var s := CommaInQuotes;
    assert s[8..9] == "R" && s[10..11] == "1";
    SnipOneChar("1", '"');
  }

  /** A comma inside double quotes does not end the value: the list has two attributes, not three. */
  lemma CommaInQuotesParsed()
    ensures Entries(CommaInQuotes, 0) == [Attribute("C", "a,b"), Attribute("R", "1")]
  {
    var s := CommaInQuotes;
    CommaInQuotesQuoted();
    CommaInQuotesUnquoted();
    CommaInQuotesFirst();
    CommaInQuotesSecond();
    EntriesAt(s, 0, Match(0, 1, 7));
    assert NextMatch(s, 7) == NextMatch(s, 8);
    EntriesAt(s, 7, Match(8, 9, 11));
    assert Entries(s, 11) == [];
  }

  // ---------------------------------------------------------------------
  // A tag prefix, and a key that ends with an earlier key

  /** A tag name before the attributes, and a second key that ends with the first. */
  const TagPrefix := "#X:B=1,A-B=2"

  /** Nothing matches in the tag name: its characters either are no key or are not followed by `=`. */
  lemma TagPrefixSkipped()
    ensures MatchAt(TagPrefix, 0).None? && MatchAt(TagPrefix, 1).None? && MatchAt(TagPrefix, 2).None?
  {
    var s := TagPrefix;
    assert KeyEnd(s, 0) == 0;
    assert KeyEnd(s, 2) == 2 && KeyEnd(s, 1) == 2;
  }

  /** The first attribute follows the tag name; none starts at the comma after it. */
  lemma TagPrefixFirst()
    ensures MatchAt(TagPrefix, 3) == Some(Match(3, 4, 6))
    ensures MatchAt(TagPrefix, 6).None?
  {
    var s := TagPrefix;
    assert KeyEnd(s, 6) == 6;
    assert KeyEnd(s, 4) == 4 && KeyEnd(s, 3) == 4;
    assert RunEnd(s, 6) == 6 && RunEnd(s, 5) == 6;
    assert QuotedEnd(s, 5) == 5;
  }

  /** The second match takes the whole key A-B, not the key B inside it. */
  lemma TagPrefixSecond()
    ensures MatchAt(TagPrefix, 7) == Some(Match(7, 10, 12))
  {
    var s := TagPrefix;
    assert KeyEnd(s, 10) == 10 && KeyEnd(s, 9) == 10 && KeyEnd(s, 8) == 10 && KeyEnd(s, 7) == 10;
    assert RunEnd(s, 12) == 12 && RunEnd(s, 11) == 12;
    assert QuotedEnd(s, 11) == 11;
  }

  /** The attributes of TagPrefix: B, then A-B. */
  lemma TagPrefixEntries()
    ensures EntryOf(TagPrefix, Match(3, 4, 6)) == Attribute("B", "1")
    ensures EntryOf(TagPrefix, Match(7, 10, 12)) == Attribute("A-B", "2")
  {
    var s := TagPrefix;
    assert s[3..4] == "B" && s[7..10] == "A-B";
    assert s[5..6] == "1" && s[11..12] == "2";
    SnipOneChar("1", '"');
    SnipOneChar("2", '"');
  }

  /**
   * The tag name is skipped and the attributes come out in order, the second
   * under its whole key A-B rather than the shorter key B it ends with.
   */
  lemma TagPrefixParsed()
    ensures Entries(TagPrefix, 0) == [Attribute("B", "1"), Attribute("A-B", "2")]
  {
    var s := TagPrefix;
    TagPrefixEntries();
    TagPrefixSkipped();
    TagPrefixFirst();
    TagPrefixSecond();
    assert NextMatch(s, 0) == NextMatch(s, 3);
    EntriesAt(s, 0, Match(3, 4, 6));
    assert NextMatch(s, 6) == NextMatch(s, 7);
    EntriesAt(s, 6, Match(7, 10, 12));
    assert Entries(s, 12) == [];
  }
}
