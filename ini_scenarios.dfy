/*
 * Lemmas proved about the model on concrete contents: the behaviour the library documents, and,
 * for each place where the source as written departs from it, an input that shows the
 * difference between the as-written member and the corrected one the model uses.
 */
module IniScenarios {
  import opened IniDefs
  import opened IniParse
  import opened IniWrite
  import opened IniMgr

  // ---------------------------------------------------------------- documented behaviour

  /** Spaces around '=' and before a "\r\n" terminator are not part of the value. */
  lemma LookupTrimsAndHandlesCrLf()
    ensures Lookup("A = 1 \r\nB=2\n", "A") == Success("1")
    ensures Lookup("A = 1 \r\nB=2\n", "B") == Success("2")
  {
    var s := "A = 1 \r\nB=2\n";
    NextNewlineLands(s, 0, 7);
    assert LineAt(s, 0) == Line(0, 5, 2);
    assert LineMatch(s, 0, "A", false) == Found(4);
    assert FindLine(s, 0, "A", false) == Some(0);
    assert TrimEnd(s, 0, 5) == 4;
    assert Lookup(s, "A") == ValueOf(s, 0, 5, 4) == Success(s[4..5]);
    assert s[4..5] == "1";
    assert LineMatch(s, 0, "B", false) == NoMatch;
    NextNewlineLands(s, 8, 11);
    assert LineAt(s, 8) == Line(8, 10, 1);
    assert LineMatch(s, 8, "B", false) == Found(10);
    assert FindLine(s, 0, "B", false) == FindLine(s, 8, "B", false) == Some(8);
    assert Lookup(s, "B") == ValueOf(s, 8, 10, 10) == Success(s[10..11]);
    assert s[10..11] == "2";
  }

  /** A key that is only a prefix of the line's key does not match it. */
  lemma LookupSkipsLongerKey()
    ensures Lookup("VAR_2=2\nVAR=1\n", "VAR") == Success("1")
  {
    var s := "VAR_2=2\nVAR=1\n";
    NextNewlineLands(s, 0, 7);
    assert LineAt(s, 0) == Line(0, 6, 1);
    assert LineMatch(s, 0, "VAR", false) == NoMatch;
    NextNewlineLands(s, 8, 13);
    assert LineAt(s, 8) == Line(8, 12, 1);
    assert LineMatch(s, 8, "VAR", false) == Found(12);
    assert FindLine(s, 0, "VAR", false) == FindLine(s, 8, "VAR", false) == Some(8);
    assert Lookup(s, "VAR") == ValueOf(s, 8, 12, 12) == Success(s[12..13]);
    assert s[12..13] == "1";
  }

  /** A key whose right-hand side holds only spaces has no value. */
  lemma LookupKeyWithoutValue()
    ensures Lookup("A=  \nB=2\n", "A") == Failure(ValNotFound)
  {
    var s := "A=  \nB=2\n";
    NextNewlineLands(s, 0, 4);
    assert LineAt(s, 0) == Line(0, 3, 1);
    assert LineMatch(s, 0, "A", false) == KeyNoValue;
  }

  /** A grow that would reach the capacity fails and reports MemoryErr. */
  lemma UpdateBeyondCapacity()
    ensures Update("A=1\n", 5, "A", "12") == Failure(MemoryErr)
    ensures Update("A=1\n", 6, "A", "12") == Success("A=12\n")
  {
    var s := "A=1\n";
    NextNewlineLands(s, 0, 3);
    assert LineAt(s, 0) == Line(0, 2, 1);
    assert LineMatch(s, 0, "A", true) == Found(2);
    assert FindLine(s, 0, "A", true) == Some(0);
    assert Update(s, 5, "A", "12") == Rewrite(s, 5, 2, 2, "12") == Failure(MemoryErr);
    assert Update(s, 6, "A", "12") == Rewrite(s, 6, 2, 2, "12") == Success(s[..2] + "12" + s[3..]);
    assert s[..2] + "12" + s[3..] == "A=12\n";
  }

  // ---------------------------------------------------------------- the source as written

  /**
   * The grow branch of wyini_write_val_inline moves the bytes but keeps m_buffer_len, so
   * the last bytes of the content fall outside it.
   */
  lemma GrowAsWritten()
    ensures RewriteAsWritten("A=123\nB=4\n", 64, 2, 4, "99999") == Success("A=99999\nB=")
    ensures Rewrite("A=123\nB=4\n", 64, 2, 4, "99999") == Success("A=99999\nB=4\n")
  {
    var s := "A=123\nB=4\n";
    var grown := s[..2] + "99999" + s[5..];
    assert grown == "A=99999\nB=4\n";
    assert grown[..|s|] == "A=99999\nB=";
  }

  /**
   * The value loops of wyini_find_var_val_inline stop below the inclusive line end, so a
   * one-byte value at the end of its line is never seen.
   */
  lemma LastByteAsWritten()
    ensures LookupAsWritten("VAR=1\nVAR_2=2\n", "VAR") == Failure(NotFound)
    ensures Lookup("VAR=1\nVAR_2=2\n", "VAR") == Success("1")
  {
    var s := "VAR=1\nVAR_2=2\n";
    NextNewlineLands(s, 0, 5);
    assert LineAt(s, 0) == Line(0, 4, 1);
    assert MatchLineAsWritten(s, 0, 4, "VAR", false) == NoMatch;
    NextNewlineLands(s, 6, 13);
    assert LineAt(s, 6) == Line(6, 12, 1);
    assert MatchLineAsWritten(s, 6, 12, "VAR", false) == NoMatch;
    assert FindLineAsWritten(s, 0, "VAR", false) == FindLineAsWritten(s, 6, "VAR", false) == None;
    assert LineMatch(s, 0, "VAR", false) == Found(4);
    assert FindLine(s, 0, "VAR", false) == Some(0);
    assert Lookup(s, "VAR") == ValueOf(s, 0, 4, 4) == Success(s[4..5]);
    assert s[4..5] == "1";
  }

  /**
   * In key-only mode, an '=' that is the last byte of its line is not passed over, so the
   * new value is written over the '='.
   */
  lemma EqualsLastAsWritten()
    ensures UpdateAsWritten("VAR=\n", 64, "VAR", "5") == Success("VAR5\n")
    ensures Update("VAR=\n", 64, "VAR", "5") == Success("VAR=5\n")
  {
    var s := "VAR=\n";
    NextNewlineLands(s, 0, 4);
    assert LineAt(s, 0) == Line(0, 3, 1);
    assert MatchLineAsWritten(s, 0, 3, "VAR", true) == Found(3);
    assert FindLineAsWritten(s, 0, "VAR", true) == Some(0);
    assert UpdateAsWritten(s, 64, "VAR", "5") == RewriteAsWritten(s, 64, 3, 3, "5") == Success(s[..3] + "5" + s[4..]);
    assert s[..3] + "5" + s[4..] == "VAR5\n";
    assert LineMatch(s, 0, "VAR", true) == Found(4);
    assert FindLine(s, 0, "VAR", true) == Some(0);
    assert Update(s, 64, "VAR", "5") == Rewrite(s, 64, 4, 3, "5") == Success(s[..4] + "5" + s[4..]);
    assert s[..4] + "5" + s[4..] == "VAR=5\n";
  }

  /**
   * In key-only mode, a line that holds the key and nothing else is accepted, so the
   * value is written into it instead of into the assignment below it.
   */
  lemma NoEqualsAsWritten()
    ensures UpdateAsWritten("VAR\nVAR=1\n", 64, "VAR", "2") == Success("VAR2\nVAR=1")
    ensures Update("VAR\nVAR=1\n", 64, "VAR", "2") == Success("VAR\nVAR=2\n")
  {
    var s := "VAR\nVAR=1\n";
    NextNewlineLands(s, 0, 3);
    assert LineAt(s, 0) == Line(0, 2, 1);
    assert MatchLineAsWritten(s, 0, 2, "VAR", true) == Found(3);
    assert FindLineAsWritten(s, 0, "VAR", true) == Some(0);
    var grown := s[..3] + "2" + s[3..];
    assert UpdateAsWritten(s, 64, "VAR", "2") == RewriteAsWritten(s, 64, 3, 2, "2") == Success(grown[..|s|]);
    assert grown[..|s|] == "VAR2\nVAR=1";
    assert LineMatch(s, 0, "VAR", true) == NoMatch;
    NextNewlineLands(s, 4, 9);
    assert LineAt(s, 4) == Line(4, 8, 1);
    assert LineMatch(s, 4, "VAR", true) == Found(8);
    assert FindLine(s, 0, "VAR", true) == FindLine(s, 4, "VAR", true) == Some(4);
    assert Update(s, 64, "VAR", "2") == Rewrite(s, 64, 8, 8, "2") == Success(s[..8] + "2" + s[9..]);
    assert s[..8] + "2" + s[9..] == "VAR\nVAR=2\n";
  }

  /**
   * An empty right-hand side makes wyini_find_var_val_inline return -1, which the caller
   * treats as "no match": the scan goes on to a later assignment of the same key.
   */
  lemma EmptyValueAsWritten()
    ensures LookupAsWritten("A=\nA=55\n", "A") == Success("55")
    ensures Lookup("A=\nA=55\n", "A") == Failure(ValNotFound)
  {
    var s := "A=\nA=55\n";
    NextNewlineLands(s, 0, 2);
    assert LineAt(s, 0) == Line(0, 1, 1);
    assert MatchLineAsWritten(s, 0, 1, "A", false) == NoMatch;
    assert LineMatch(s, 0, "A", false) == KeyNoValue;
    assert FindLine(s, 0, "A", false) == Some(0);
    NextNewlineLands(s, 3, 7);
    assert LineAt(s, 3) == Line(3, 6, 1);
    assert MatchLineAsWritten(s, 3, 6, "A", false) == Found(5);
    assert FindLineAsWritten(s, 0, "A", false) == FindLineAsWritten(s, 3, "A", false) == Some(3);
    assert TrimEnd(s, 3, 6) == 6;
    assert LookupAsWritten(s, "A") == ValueOf(s, 3, 6, 5) == Success(s[5..7]);
    assert s[5..7] == "55";
  }
}
