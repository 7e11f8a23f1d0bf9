/*
 * Line scanning and key matching (src/WY_IniParseAgent.c, src/WY_IniParseAgent.h).
 *
 * Offsets are those of the logical content `s` (m_buffer[..m_buffer_len]). A line is
 * described as in the header: its first byte, its last content byte `end` (start - 1
 * for an empty line) and the width of its terminator (0, 1 for "\n", 2 for "\r\n").
 */
module IniParse {
  import opened IniDefs

  // ---------------------------------------------------------------- line scanning

  /** The index of the first '\n' at or after `start`, or |s| when there is none. */
  function NextNewline(s: seq<char>, start: nat): (nl: nat)
    requires start <= |s|
    ensures start <= nl <= |s|
    ensures nl < |s| ==> s[nl] == '\n'
    decreases |s| - start
  {
    if start == |s| || s[start] == '\n' then start else NextNewline(s, start + 1)
  }

  /** NextNewline passes no '\n' on its way. */
  lemma {:induction false} NextNewlineSkips(s: seq<char>, start: nat)
    requires start <= |s|
    ensures forall k :: start <= k < NextNewline(s, start) ==> s[k] != '\n'
    decreases |s| - start
  {
    if start < |s| && s[start] != '\n' {
      NextNewlineSkips(s, start + 1);
    }
  }

  /** A line of the buffer: first byte, last content byte, terminator width. */
  datatype Line = Line(start: nat, end: int, width: nat) {
    /** Where the following line begins: end_offset + 1 + terminator width. */
    function Next(): int {
      end + width + 1
    }
  }

  /** The line that begins at `start`. */
  function LineAt(s: seq<char>, start: nat): (ln: Line)
    requires start < |s|
    ensures ln.start == start && start - 1 <= ln.end < |s| && ln.width <= 2
    ensures start < ln.Next() <= |s|
    ensures ln.width == 0 ==> ln.end == |s| - 1
    ensures ln.width != 0 ==> s[ln.end + ln.width] == '\n'
    ensures ln.width == 2 ==> s[ln.end + 1] == '\r'
    ensures ln.width == 1 && start <= ln.end ==> s[ln.end] != '\r'
  {
    var nl := NextNewline(s, start);
    if nl == |s| then Line(start, |s| - 1, 0)
    else if nl > start && s[nl - 1] == '\r' then Line(start, nl - 2, 2)
    else Line(start, nl - 1, 1)
  }

  /** NextNewline stops at `j` when no '\n' lies before it and `j` is the end or a '\n'. */
  lemma {:induction false} NextNewlineLands(s: seq<char>, i: nat, j: nat)
    requires i <= j <= |s|
    requires forall k :: i <= k < j ==> s[k] != '\n'
    requires j < |s| ==> s[j] == '\n'
    ensures NextNewline(s, i) == j
    decreases j - i
  {
    if i < j {
      NextNewlineLands(s, i + 1, j);
    }
  }

  /**
   * A line holds no '\n' before its terminator's own '\n', nor anywhere up to the end of
   * the content when it has no terminator.
   */
  lemma LineAtHasNoNewline(s: seq<char>, start: nat)
    requires start < |s|
    ensures forall k :: start <= k < LineAt(s, start).end + LineAt(s, start).width ==> s[k] != '\n'
    ensures LineAt(s, start).width == 0 ==> forall k :: start <= k < |s| ==> s[k] != '\n'
  {
    NextNewlineSkips(s, start);
  }

  /**
   * wyini_get_nextline: walk forward from `start` to the first '\n' (the loop of the
   * .c file, in which a NUL byte does not end a line), then report the line as the
   * header documents it: the byte before "\n" or "\r\n", or the last byte of the
   * content when no '\n' follows.
   */
  method GetNextline(start: nat, wb: IniBuffer) returns (end: int, width: nat)
    requires wb.Valid() && wb.buffer != null && start < wb.bufferLen
    ensures Line(start, end, width) == LineAt(wb.Content(), start)
  {
    var buf, len := wb.buffer, wb.bufferLen;
    ghost var s := wb.Content();
    var p := start;
    while p < len && buf[p] != '\n'
      invariant start <= p <= len
      invariant forall k :: start <= k < p ==> s[k] != '\n'
    {
      p := p + 1;
    }
    NextNewlineLands(s, start, p);
    if p == len {
      end, width := len - 1, 0;   // no '\n': the last byte of the content
    } else if p > start && buf[p - 1] == '\r' {
      end, width := p - 2, 2;
    } else {
      end, width := p - 1, 1;
    }
  }

  // ---------------------------------------------------------------- key matching

  /** The outcome of matching one line against a key. */
  datatype Match = NoMatch | KeyNoValue | Found(offset: nat)

  /** Every byte of s[lo..hi) is a space. */
  predicate AllSpaces(s: seq<char>, lo: int, hi: int)
    requires 0 <= lo && hi <= |s|
  {
    forall k :: lo <= k < hi ==> s[k] == ' '
  }

  /**
   * The first index j >= i that is not below `bound` or holds a non-space:
   * the loop `while (i < bound && s[i] == ' ') ++i`.
   */
  function SkipSpaces(s: seq<char>, i: nat, bound: int): (j: nat)
    requires bound <= |s|
    ensures i <= j && (i <= bound ==> j <= bound) && (bound < i ==> j == i)
    ensures j < bound ==> s[j] != ' '
    decreases |s| - i
  {
    if i < bound && s[i] == ' ' then SkipSpaces(s, i + 1, bound) else i
  }

  /** SkipSpaces passes nothing but spaces. */
  lemma {:induction false} SkipSpacesSkips(s: seq<char>, i: nat, bound: int)
    requires bound <= |s|
    ensures forall k :: i <= k < SkipSpaces(s, i, bound) ==> s[k] == ' '
    decreases |s| - i
  {
    if i < bound && s[i] == ' ' {
      SkipSpacesSkips(s, i + 1, bound);
    }
  }

  /** `key` occupies the first |key| bytes of the line whose last content byte is `end`. */
  predicate KeyAt(s: seq<char>, start: nat, end: int, key: seq<char>)
    requires end < |s|
  {
    start + |key| <= end + 1 && s[start..start + |key|] == key
  }

  /**
   * The line [start, end] assigns `key`, with its '=' at `eq`: the key at the line
   * start, then nothing but spaces, then '='.
   */
  predicate AssignsAt(s: seq<char>, start: nat, end: int, key: seq<char>, eq: int)
    requires end < |s|
  {
    KeyAt(s, start, end, key) && start + |key| <= eq <= end && s[eq] == '=' &&
    AllSpaces(s, start + |key|, eq)
  }

  /** The value of a line whose '=' is at `eq` begins at `i`: only spaces between, s[i] is not one. */
  predicate ValueBegins(s: seq<char>, eq: nat, i: int, end: int)
    requires end < |s|
  {
    eq < i <= end && s[i] != ' ' && AllSpaces(s, eq + 1, i)
  }

  /**
   * wyini_find_var_val_inline as intended, with the line end inclusive: the key, spaces,
   * '=' and, in value mode, spaces and the first value byte. The source differs in three
   * places, each modelled by MatchLineAsWritten.
   */
  function MatchLine(s: seq<char>, start: nat, end: int, key: seq<char>, varOnly: bool): (m: Match)
    requires end < |s|
    ensures m.Found? ==> start + |key| < m.offset <= end + 1
    ensures m.Found? && !varOnly ==> m.offset <= end && s[m.offset] != ' '
    ensures varOnly ==> !m.KeyNoValue?
  {
    if !KeyAt(s, start, end, key) then NoMatch
    else
      var i := SkipSpaces(s, start + |key|, end + 1);
      if i > end || s[i] != '=' then NoMatch
      else if varOnly then Found(i + 1)
      else
        var j := SkipSpaces(s, i + 1, end + 1);
        if j > end then KeyNoValue else Found(j)
  }

  /** SkipSpaces stops at `j` when only spaces lie before it and `j` is the bound or not a space. */
  lemma {:induction false} SkipSpacesLands(s: seq<char>, i: nat, bound: int, j: nat)
    requires bound <= |s| && i <= j <= bound
    requires forall k :: i <= k < j ==> s[k] == ' '
    requires j < bound ==> s[j] != ' '
    ensures SkipSpaces(s, i, bound) == j
    decreases j - i
  {
    if i < j {
      SkipSpacesLands(s, i + 1, bound, j);
    }
  }

  /** The '=' of an assignment is the first non-space byte after the key. */
  lemma AssignsAtIsFirstNonSpace(s: seq<char>, start: nat, end: int, key: seq<char>, eq: int)
    requires end < |s| && KeyAt(s, start, end, key)
    ensures AssignsAt(s, start, end, key, eq) <==>
              (eq == SkipSpaces(s, start + |key|, end + 1) && eq <= end && s[eq] == '=')
  {
    SkipSpacesSkips(s, start + |key|, end + 1);
    if AssignsAt(s, start, end, key, eq) {
      SkipSpacesLands(s, start + |key|, end + 1, eq);
    }
  }

  /**
   * What a match means, in both modes: no match exactly when the line does not assign
   * the key; in key-only mode the offset just past '='; in value mode KeyNoValue exactly
   * when only spaces follow '=', else the first non-space byte after '='.
   */
  lemma MatchLineMeaning(s: seq<char>, start: nat, end: int, key: seq<char>, varOnly: bool, eq: int)
    requires end < |s|
    ensures MatchLine(s, start, end, key, varOnly) == NoMatch <==>
              forall e :: !AssignsAt(s, start, end, key, e)
    ensures AssignsAt(s, start, end, key, eq) && varOnly ==>
              MatchLine(s, start, end, key, varOnly) == Found(eq + 1)
    ensures AssignsAt(s, start, end, key, eq) && !varOnly ==>
              (MatchLine(s, start, end, key, varOnly) == KeyNoValue <==> AllSpaces(s, eq + 1, end + 1))
    ensures AssignsAt(s, start, end, key, eq) && !varOnly ==>
              forall i: nat :: MatchLine(s, start, end, key, varOnly) == Found(i) <==> ValueBegins(s, eq, i, end)
  {
    var m := MatchLine(s, start, end, key, varOnly);
    if KeyAt(s, start, end, key) {
      var i := SkipSpaces(s, start + |key|, end + 1);
      forall e
        ensures AssignsAt(s, start, end, key, e) <==> (e == i && e <= end && s[e] == '=')
      {
        AssignsAtIsFirstNonSpace(s, start, end, key, e);
      }
      if AssignsAt(s, start, end, key, eq) && !varOnly {
        SkipSpacesSkips(s, eq + 1, end + 1);
        forall v: nat
          ensures m == Found(v) <==> ValueBegins(s, eq, v, end)
        {
          if ValueBegins(s, eq, v, end) {
            SkipSpacesLands(s, eq + 1, end + 1, v);
          }
        }
      }
    }
  }

  /**
   * strncmp(m_buffer + start, key, |key|) == 0 for a key without NUL bytes: the |key|
   * bytes at `start` are the key.
   */
  method KeyEquals(start: nat, key: seq<char>, wb: IniBuffer) returns (same: bool)
    requires wb.Valid() && wb.buffer != null && start + |key| <= wb.bufferLen
    ensures same <==> wb.Content()[start..start + |key|] == key
  {
    var buf := wb.buffer;
    ghost var s := wb.Content();
    var n := 0;
    while n < |key|
      invariant 0 <= n <= |key|
      invariant forall k :: 0 <= k < n ==> s[start + k] == key[k]
    {
      if buf[start + n] != key[n] {
        assert s[start..start + |key|][n] != key[n];
        return false;
      }
      n := n + 1;
    }
    assert s[start..start + |key|] == key;
    return true;
  }

  /**
   * wyini_find_var_val_inline: strncmp of the key at the line start, then the two loops
   * of the source over the line [start, end], with the line end inclusive.
   */
  method FindVarValInline(varOnly: bool, start: nat, end: int, key: seq<char>, wb: IniBuffer)
    returns (m: Match)
    requires wb.Valid() && wb.buffer != null && end < wb.bufferLen
    ensures m == MatchLine(wb.Content(), start, end, key, varOnly)
  {
    var buf := wb.buffer;
    ghost var s := wb.Content();
    if start + |key| > end + 1 {
      return NoMatch;
    }
    var same := KeyEquals(start, key, wb);
    if !same {
      return NoMatch;
    }

    var i := start + |key|;
    var sawEquals := false;
    while i <= end && !sawEquals
      invariant start + |key| <= i <= end + 1
      invariant !sawEquals ==> SkipSpaces(s, start + |key|, end + 1) == SkipSpaces(s, i, end + 1)
      invariant sawEquals ==> i - 1 == SkipSpaces(s, start + |key|, end + 1) && s[i - 1] == '='
    {
      if buf[i] == ' ' {
        i := i + 1;
      } else if buf[i] == '=' {
        i := i + 1;
        sawEquals := true;
      } else {
        return NoMatch;
      }
    }
    if !sawEquals {
      return NoMatch;
    }
    if varOnly {
      return Found(i);
    }
    ghost var afterEquals := i;
    while i <= end && buf[i] == ' '
      invariant afterEquals <= i <= end + 1
      invariant SkipSpaces(s, afterEquals, end + 1) == SkipSpaces(s, i, end + 1)
    {
      i := i + 1;
    }
    if i <= end {
      return Found(i);
    }
    return KeyNoValue;
  }

  // ---------------------------------------------------------------- the source as written

  /**
   * wyini_find_var_val_inline exactly as written: every loop stops below `end`, so the
   * last byte of the line is never examined; running out of line before '=' still
   * succeeds in key-only mode; an empty right-hand side yields -1, here NoMatch.
   */
  function MatchLineAsWritten(s: seq<char>, start: nat, end: int, key: seq<char>, varOnly: bool): (m: Match)
    requires end < |s|
    ensures !m.KeyNoValue?
    ensures m.Found? ==> start + |key| <= m.offset <= end + 1
    ensures m.Found? && !varOnly ==> start + |key| < m.offset < end && s[m.offset] != ' '
  {
    if !KeyAt(s, start, end, key) then NoMatch
    else
      var i := SkipSpaces(s, start + |key|, end);
      if i < end && s[i] != '=' then NoMatch
      else
        var k := if i < end then i + 1 else i;
        if varOnly then Found(k)
        else
          var j := SkipSpaces(s, k, end);
          if j < end then Found(j) else NoMatch
  }
}
