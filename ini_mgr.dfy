/*
 * The public operations over the one IniBuffer (src/WY_IniMgr.c, src/WY_IniMgr.h):
 * init, open, save, clean, lookup (wyini_get_var_val) and update (wyini_write_val).
 *
 * Lookup and update scan the content line by line from offset 0; the first line that
 * assigns the key wins. `Lookup` and `Update` state that scan as functions of the
 * content; `GetVarVal` and `WriteVal` run it over the buffer and are proved against them.
 */
module IniMgr {
  import opened IniDefs
  import opened IniParse
  import opened IniWrite

  // ---------------------------------------------------------------- the scan

  /** `p` is where a line begins: offset 0 or just after a '\n'. */
  predicate IsLineStart(s: seq<char>, p: nat) {
    p == 0 || (p <= |s| && s[p - 1] == '\n')
  }

  /** How the line that begins at `p` matches `key`. */
  function LineMatch(s: seq<char>, p: nat, key: seq<char>, varOnly: bool): Match
    requires p < |s|
  {
    MatchLine(s, p, LineAt(s, p).end, key, varOnly)
  }

  /** Scan line by line from `start`: where the first line that matches `key` begins. */
  function FindLine(s: seq<char>, start: nat, key: seq<char>, varOnly: bool): (r: Option<nat>)
    requires start <= |s|
    ensures r.Some? ==> start <= r.value < |s|
    decreases |s| - start
  {
    if start == |s| then None
    else if LineMatch(s, start, key, varOnly) != NoMatch then Some(start)
    else FindLine(s, LineAt(s, start).Next(), key, varOnly)
  }

  /** No line begins strictly inside the line at `start`, and the next one begins right after it. */
  lemma NoLineStartInside(s: seq<char>, start: nat)
    requires start < |s|
    ensures forall p :: start < p < LineAt(s, start).Next() ==> !IsLineStart(s, p)
    ensures IsLineStart(s, LineAt(s, start).Next()) || LineAt(s, start).Next() == |s|
  {
    var ln := LineAt(s, start);
    LineAtHasNoNewline(s, start);
    forall p | start < p < ln.Next()
      ensures !IsLineStart(s, p)
    {
      assert s[p - 1] != '\n';
    }
  }

  /**
   * First match wins: the scan from a line start before which no line matches returns a
   * line start that matches, before which no line matches; when it returns nothing, no
   * line matches at all.
   */
  lemma {:induction false} FindLineFirstMatch(s: seq<char>, start: nat, key: seq<char>, varOnly: bool)
    requires start <= |s| && (IsLineStart(s, start) || start == |s|)
    requires NoneMatchBefore(s, start, key, varOnly)
    ensures FindLine(s, start, key, varOnly).None? ==> NoneMatchBefore(s, |s|, key, varOnly)
    ensures FindLine(s, start, key, varOnly).Some? ==>
              var q := FindLine(s, start, key, varOnly).value;
              IsLineStart(s, q) && LineMatch(s, q, key, varOnly) != NoMatch &&
              NoneMatchBefore(s, q, key, varOnly)
    decreases |s| - start
  {
    if start < |s| && LineMatch(s, start, key, varOnly) == NoMatch {
      var ln := LineAt(s, start);
      ScanStep(s, start, ln.end, ln.width, key, varOnly, NoMatch);
      FindLineFirstMatch(s, ln.Next(), key, varOnly);
    }
  }

  /** No line that begins below n matches `key`. */
  predicate NoneMatchBefore(s: seq<char>, n: nat, key: seq<char>, varOnly: bool)
  {
    forall p :: 0 <= p < n && p < |s| && IsLineStart(s, p) ==> LineMatch(s, p, key, varOnly) == NoMatch
  }

  /**
   * One step of the scan at the line [start, end]: a line that does not match extends the
   * run of non-matching lines up to the next line start.
   */
  lemma ScanStep(s: seq<char>, start: nat, end: int, width: nat, key: seq<char>, varOnly: bool, m: Match)
    requires start < |s| && IsLineStart(s, start) && NoneMatchBefore(s, start, key, varOnly)
    requires Line(start, end, width) == LineAt(s, start) && m == MatchLine(s, start, end, key, varOnly)
    ensures m == NoMatch ==>
              var next := end + width + 1;
              (next == |s| || IsLineStart(s, next)) && NoneMatchBefore(s, next, key, varOnly)
  {
    NoLineStartInside(s, start);
  }

  /** When no line start before n matches, the scan from 0 goes straight to n. */
  lemma {:induction false} ScanSkips(s: seq<char>, a: nat, n: nat, key: seq<char>, varOnly: bool)
    requires a <= n <= |s| && (IsLineStart(s, a) || a == |s|) && (IsLineStart(s, n) || n == |s|)
    requires NoneMatchBefore(s, n, key, varOnly)
    ensures FindLine(s, a, key, varOnly) == FindLine(s, n, key, varOnly)
    decreases n - a
  {
    if a < n {
      NoLineStartInside(s, a);
      var next := LineAt(s, a).Next();
      assert next <= n;
      ScanSkips(s, LineAt(s, a).Next(), n, key, varOnly);
    }
  }

  /** A line assigns a key or not whichever mode it is matched in. */
  lemma NoMatchEitherMode(s: seq<char>, p: nat, end: int, key: seq<char>)
    requires end < |s|
    ensures MatchLine(s, p, end, key, true) == NoMatch <==> MatchLine(s, p, end, key, false) == NoMatch
  {
    MatchLineMeaning(s, p, end, key, true, 0);
    MatchLineMeaning(s, p, end, key, false, 0);
  }

  // ---------------------------------------------------------------- lookup and update

  /**
   * The value of the line [start, end] whose first value byte is at `off`: trimmed of its
   * trailing spaces, and NotFound when it is MaxValLen bytes or longer.
   */
  function ValueOf(s: seq<char>, start: nat, end: nat, off: nat): (r: Outcome<seq<char>>)
    requires start <= off <= end < |s| && s[off] != ' '
    ensures r.Success? ==>
              0 < |r.value| < MaxValLen && r.value[0] != ' ' && r.value[|r.value| - 1] != ' '
    ensures r.Success? ==>
              off + |r.value| <= end + 1 && r.value == s[off..off + |r.value|] &&
              AllSpaces(s, off + |r.value|, end + 1)
    ensures r.Failure? ==> r.error == NotFound
    ensures r.Failure? <==>
              forall k :: off <= k <= end && s[k] != ' ' && AllSpaces(s, k + 1, end + 1) ==>
                k + 1 - off >= MaxValLen
  {
    TrimEndDropsSpaces(s, start, end);
    var v := s[off..TrimEnd(s, start, end) + 1];
    if |v| < MaxValLen then Success(v) else Failure(NotFound)
  }

  /**
   * wyini_get_var_val on the content `s`: the value of the first line that assigns `key`;
   * ValNotFound when that line's right-hand side is empty; NotFound when no line assigns
   * the key.
   */
  function Lookup(s: seq<char>, key: seq<char>): (r: Outcome<seq<char>>)
    ensures r.Success? ==>
              0 < |r.value| < MaxValLen && r.value[0] != ' ' && r.value[|r.value| - 1] != ' '
    ensures r.Failure? ==> r.error == NotFound || r.error == ValNotFound
  {
    match FindLine(s, 0, key, false)
    case None => Failure(NotFound)
    case Some(p) =>
      match LineMatch(s, p, key, false)
      case Found(off) => ValueOf(s, p, LineAt(s, p).end, off)
      case KeyNoValue => Failure(ValNotFound)
      case NoMatch => Failure(NotFound)  // not reached: the scan stops only at a matching line
  }

  /**
   * wyini_write_val on the content `s` of a buffer of capacity `cap`: a value of MaxValLen
   * bytes or more is refused, then the first line that assigns `key` has everything after
   * its '=' (up to its terminator) replaced by `v`.
   */
  function Update(s: seq<char>, cap: nat, key: seq<char>, v: seq<char>): (r: Outcome<seq<char>>)
    ensures r.Failure? ==> r.error == MemoryErr || r.error == NotFound
    ensures |v| >= MaxValLen ==> r == Failure(MemoryErr)
    ensures r.Success? ==> |v| < MaxValLen
    ensures r.Success? && |s| < cap ==> |r.value| < cap
  {
    if |v| >= MaxValLen then Failure(MemoryErr)
    else
      match FindLine(s, 0, key, true)
      case None => Failure(NotFound)
      case Some(p) =>
        match LineMatch(s, p, key, true)
        case Found(off) => Rewrite(s, cap, off, LineAt(s, p).end, v)
        case _ => Failure(NotFound)  // not reached: the scan stops only at a matching line
  }

  /**
   * Lookup and update agree on absence: both fail with NotFound when no line start carries
   * an assignment of the key, and update fails with NotFound only then.
   */
  lemma {:induction false} NotFoundAgree(s: seq<char>, cap: nat, key: seq<char>, v: seq<char>)
    requires |v| < MaxValLen
    ensures FindLine(s, 0, key, false).None? <==>
              forall p :: 0 <= p < |s| && IsLineStart(s, p) ==>
                forall e :: !AssignsAt(s, p, LineAt(s, p).end, key, e)
    ensures Update(s, cap, key, v) == Failure(NotFound) <==> FindLine(s, 0, key, false).None?
    ensures FindLine(s, 0, key, false).None? ==> Lookup(s, key) == Failure(NotFound)
  {
    FindLineFirstMatch(s, 0, key, true);
    FindLineFirstMatch(s, 0, key, false);
    forall p | 0 <= p < |s| && IsLineStart(s, p)
      ensures LineMatch(s, p, key, false) == NoMatch <==>
                forall e :: !AssignsAt(s, p, LineAt(s, p).end, key, e)
      ensures LineMatch(s, p, key, true) == NoMatch <==> LineMatch(s, p, key, false) == NoMatch
    {
      MatchLineMeaning(s, p, LineAt(s, p).end, key, false, 0);
      NoMatchEitherMode(s, p, LineAt(s, p).end, key);
    }
    if FindLine(s, 0, key, true).Some? {
      var q := FindLine(s, 0, key, true).value;
      NoMatchEitherMode(s, q, LineAt(s, q).end, key);
      MatchLineMeaning(s, q, LineAt(s, q).end, key, true, 0);
    }
    if FindLine(s, 0, key, false).Some? {
      var q := FindLine(s, 0, key, false).value;
      NoMatchEitherMode(s, q, LineAt(s, q).end, key);
    }
  }

  // ---------------------------------------------------------------- lookup after update

  /**
   * No '\n' in `v`, and no '\r' as its last byte: writing it before a line's terminator
   * cannot split the line or turn a "\n" terminator into "\r\n".
   */
  predicate NoLineBreak(v: seq<char>) {
    (forall k :: 0 <= k < |v| ==> v[k] != '\n') && (0 < |v| ==> v[|v| - 1] != '\r')
  }

  /** Two contents hold the same bytes below n. */
  predicate SameUpTo(s: seq<char>, t: seq<char>, n: nat) {
    n <= |s| && n <= |t| && forall k :: 0 <= k < n ==> s[k] == t[k]
  }

  /** SkipSpaces reads nothing at or beyond its bound. */
  lemma SkipSpacesAgree(s: seq<char>, t: seq<char>, i: nat, bound: int, n: nat)
    requires bound <= n && SameUpTo(s, t, n)
    ensures SkipSpaces(t, i, bound) == SkipSpaces(s, i, bound)
  {
    var j := SkipSpaces(s, i, bound);
    SkipSpacesSkips(s, i, bound);
    if i <= bound {
      SkipSpacesLands(t, i, bound, j);
    }
  }

  /** The key test reads only the bytes of the key. */
  lemma KeyAtAgree(s: seq<char>, t: seq<char>, p: nat, end: int, key: seq<char>, n: nat)
    requires end < n && SameUpTo(s, t, n)
    ensures KeyAt(t, p, end, key) == KeyAt(s, p, end, key)
  {
    var hi := p + |key|;
    if hi <= end + 1 {
      assert s[p..hi] == t[p..hi];
    }
  }

  /** Matching a line reads nothing beyond its last content byte. */
  lemma MatchLineAgree(s: seq<char>, t: seq<char>, p: nat, end: int, key: seq<char>, varOnly: bool, n: nat)
    requires end < n && SameUpTo(s, t, n)
    ensures MatchLine(t, p, end, key, varOnly) == MatchLine(s, p, end, key, varOnly)
  {
    KeyAtAgree(s, t, p, end, key, n);
    if KeyAt(s, p, end, key) {
      var hi := p + |key|;
      SkipSpacesAgree(s, t, hi, end + 1, n);
      var i := SkipSpaces(s, hi, end + 1);
      if i <= end {
        SkipSpacesAgree(s, t, i + 1, end + 1, n);
      }
    }
  }

  /** A line that ends, '\n' included, inside a shared prefix is the same line in both contents. */
  lemma LineAgree(s: seq<char>, t: seq<char>, p: nat, n: nat)
    requires p < n && SameUpTo(s, t, n) && NextNewline(s, p) < n
    ensures LineAt(t, p) == LineAt(s, p)
  {
    var nl := NextNewline(s, p);
    NextNewlineSkips(s, p);
    NextNewlineLands(t, p, nl);
    if nl > p {
      assert t[nl - 1] == s[nl - 1];
    }
  }

  /**
   * A content that agrees with `s` on its first n bytes, where n is a line start of `s`,
   * has the same lines before n, and so the same non-matching ones.
   */
  lemma PrefixMatches(s: seq<char>, t: seq<char>, n: nat, key: seq<char>, varOnly: bool)
    requires n <= |s| && SameUpTo(s, t, n) && IsLineStart(s, n) && NoneMatchBefore(s, n, key, varOnly)
    ensures NoneMatchBefore(t, n, key, varOnly)
  {
    forall p | 0 <= p < n && p < |t| && IsLineStart(t, p)
      ensures LineMatch(t, p, key, varOnly) == NoMatch
    {
      assert IsLineStart(s, p);
      NextNewlineSkips(s, p);
      assert NextNewline(s, p) <= n - 1;
      LineAgree(s, t, p, n);
      MatchLineAgree(s, t, p, LineAt(s, p).end, key, varOnly, n);
    }
  }

  /** s2 holds the bytes of s[..o] + v + s[e + 1..], piece by piece. */
  predicate Spliced(s: seq<char>, o: nat, e: int, v: seq<char>, s2: seq<char>) {
    o <= e + 1 <= |s| && |s2| == o + |v| + (|s| - e - 1) &&
    (forall k :: 0 <= k < o ==> s2[k] == s[k]) &&
    (forall k :: 0 <= k < |v| ==> s2[o + k] == v[k]) &&
    (forall k :: o + |v| <= k < |s2| ==> s2[k] == s[k - o - |v| + e + 1])
  }

  /** The spliced sequence, byte by byte. */
  lemma SpliceAt(s: seq<char>, o: nat, e: int, v: seq<char>, s2: seq<char>)
    requires o <= e + 1 <= |s| && s2 == s[..o] + v + s[e + 1..]
    ensures Spliced(s, o, e, v, s2)
  {
  }

  /**
   * After the right-hand side of the line at q is replaced by `v`, the line's '\n' (if it
   * has one) has moved by the change in length, and no other '\n' comes before it.
   */
  lemma RewrittenNewline(s: seq<char>, q: nat, eq: nat, v: seq<char>, s2: seq<char>)
    requires q < |s| && q <= eq <= LineAt(s, q).end && s[eq] == '=' && NoLineBreak(v)
    requires Spliced(s, eq + 1, LineAt(s, q).end, v, s2)
    ensures var w := LineAt(s, q).width;
            NextNewline(s2, q) == if w == 0 then |s2| else eq + |v| + w
  {
    var ln := LineAt(s, q);
    var e, w := ln.end, ln.width;
    var o := eq + 1;
    LineAtHasNoNewline(s, q);
    var nl2 := if w == 0 then |s2| else o + |v| + w - 1;
    forall k | q <= k < nl2
      ensures s2[k] != '\n'
    {
      if k >= o + |v| {
        assert s2[k] == s[k - o - |v| + e + 1];
      } else if k >= o {
        assert s2[k] == v[k - o];
      }
    }
    if w != 0 {
      assert s2[nl2] == s[e + w];
    }
    NextNewlineLands(s2, q, nl2);
  }

  /**
   * The line of an assignment whose right-hand side was replaced by `v` keeps its start and
   * its terminator, and now ends with the last byte of `v`.
   */
  lemma RewrittenLineShape(s: seq<char>, q: nat, eq: nat, v: seq<char>, s2: seq<char>)
    requires q < |s| && q <= eq <= LineAt(s, q).end && s[eq] == '=' && NoLineBreak(v)
    requires Spliced(s, eq + 1, LineAt(s, q).end, v, s2)
    ensures q < |s2| && LineAt(s2, q) == Line(q, eq + |v|, LineAt(s, q).width)
  {
    var ln := LineAt(s, q);
    var e, w := ln.end, ln.width;
    RewrittenNewline(s, q, eq, v, s2);
    var last := eq + |v|;
    RewrittenLastByte(s, eq, LineAt(s, q).end, v, s2);
    if w == 2 {
      assert s2[last + 1] == s[e + 1];
    }
    LineFromNewline(s2, q, last, w);
  }

  /** The last byte before the rewritten line's terminator is the '=' or the end of `v`, not '\r'. */
  lemma RewrittenLastByte(s: seq<char>, eq: nat, e: int, v: seq<char>, s2: seq<char>)
    requires eq < |s| && s[eq] == '=' && NoLineBreak(v) && Spliced(s, eq + 1, e, v, s2)
    ensures eq + |v| < |s2| && s2[eq + |v|] != '\r'
  {
    if |v| > 0 {
      assert s2[eq + 1 + (|v| - 1)] == v[|v| - 1];
    }
  }

  /** The line at q of `t` read back from where its terminator begins. */
  lemma LineFromNewline(t: seq<char>, q: nat, last: nat, w: nat)
    requires q <= last < |t| && t[last] != '\r' && w <= 2
    requires NextNewline(t, q) == if w == 0 then |t| else last + w
    requires if w == 0 then last == |t| - 1 else last + w < |t|
    requires w == 2 ==> t[last + 1] == '\r'
    ensures LineAt(t, q) == Line(q, last, w)
  {
  }

  /** The rewritten line still assigns the key, with its '=' where it was. */
  lemma RewrittenLine(s: seq<char>, q: nat, key: seq<char>, eq: nat, v: seq<char>, s2: seq<char>)
    requires q < |s| && AssignsAt(s, q, LineAt(s, q).end, key, eq) && NoLineBreak(v)
    requires Spliced(s, eq + 1, LineAt(s, q).end, v, s2)
    ensures q < |s2| && LineAt(s2, q) == Line(q, eq + |v|, LineAt(s, q).width)
    ensures AssignsAt(s2, q, eq + |v|, key, eq)
    ensures eq + 1 + |v| <= |s2| && s2[eq + 1..eq + 1 + |v|] == v && SameUpTo(s, s2, q)
  {
    RewrittenLineShape(s, q, eq, v, s2);
    assert s2[q..q + |key|] == s[q..q + |key|];
  }

  /**
   * A content that agrees with `s` up to the line start q, where no earlier line of `s`
   * assigns the key, is scanned straight to q in both modes.
   */
  lemma ScanToSite(s: seq<char>, s2: seq<char>, q: nat, key: seq<char>)
    requires q < |s| && SameUpTo(s, s2, q) && IsLineStart(s, q) && NoneMatchBefore(s, q, key, true)
    ensures NoneMatchBefore(s2, q, key, false) && NoneMatchBefore(s2, q, key, true)
  {
    forall p | 0 <= p < q && IsLineStart(s, p)
      ensures LineMatch(s, p, key, false) == NoMatch
    {
      NoMatchEitherMode(s, p, LineAt(s, p).end, key);
    }
    PrefixMatches(s, s2, q, key, false);
    PrefixMatches(s, s2, q, key, true);
  }

  /** The first line the key-only scan matches assigns the key, with its '=' just before the offset. */
  lemma FirstAssignment(s: seq<char>, key: seq<char>, q: nat) returns (eq: nat)
    requires FindLine(s, 0, key, true) == Some(q)
    ensures q < |s| && LineMatch(s, q, key, true) == Found(eq + 1) && q <= eq <= LineAt(s, q).end
    ensures AssignsAt(s, q, LineAt(s, q).end, key, eq)
    ensures IsLineStart(s, q) && NoneMatchBefore(s, q, key, true)
  {
    var end := LineAt(s, q).end;
    FindLineFirstMatch(s, 0, key, true);
    MatchLineMeaning(s, q, end, key, true, 0);
    var e :| AssignsAt(s, q, end, key, e);
    MatchLineMeaning(s, q, end, key, true, e);
    eq := e;
  }

  /**
   * Where a successful update wrote: the first line of `s` that assigns the key starts at q
   * and has its '=' at eq; everything after that '=', up to the line terminator, became `v`.
   */
  lemma UpdateTarget(s: seq<char>, cap: nat, key: seq<char>, v: seq<char>, s2: seq<char>)
    returns (q: nat, eq: nat)
    requires Update(s, cap, key, v) == Success(s2)
    ensures |v| < MaxValLen && q < |s| && IsLineStart(s, q) && NoneMatchBefore(s, q, key, true)
    ensures AssignsAt(s, q, LineAt(s, q).end, key, eq)
    ensures s2 == s[..eq + 1] + v + s[LineAt(s, q).end + 1..]
  {
    q := UpdateLine(s, cap, key, v, s2);
    eq := FirstAssignment(s, key, q);
  }

  /** A successful update rewrote what follows the match offset on the first matching line. */
  lemma UpdateLine(s: seq<char>, cap: nat, key: seq<char>, v: seq<char>, s2: seq<char>)
    returns (q: nat)
    requires Update(s, cap, key, v) == Success(s2)
    ensures |v| < MaxValLen && FindLine(s, 0, key, true) == Some(q)
    ensures var m := LineMatch(s, q, key, true);
            m.Found? && q <= m.offset <= LineAt(s, q).end + 1 &&
            s2 == s[..m.offset] + v + s[LineAt(s, q).end + 1..]
  {
    var found := FindLine(s, 0, key, true);
    assert found.Some?;
    q := found.value;
    UpdateFound(s, cap, q, key, v, LineMatch(s, q, key, true));
  }

  /**
   * Rewriting what follows the '=' of the first assigning line with a value that holds no
   * line break leaves a written site: the line keeps its start and terminator, holds
   * exactly `v` after its '=', and no line before it matches the key in either mode.
   */
  lemma RewriteSite(s: seq<char>, s2: seq<char>, key: seq<char>, v: seq<char>, q: nat, eq: nat)
    returns (w: nat)
    requires q < |s| && IsLineStart(s, q) && NoneMatchBefore(s, q, key, true)
    requires AssignsAt(s, q, LineAt(s, q).end, key, eq) && NoLineBreak(v)
    requires s2 == s[..eq + 1] + v + s[LineAt(s, q).end + 1..]
    ensures WrittenSite(s2, key, v, q, eq, w) && w == LineAt(s, q).width
  {
    SpliceAt(s, eq + 1, LineAt(s, q).end, v, s2);
    w := SplicedSite(s, s2, key, v, q, eq);
  }

  /** RewriteSite, with the new content given byte by byte. */
  lemma SplicedSite(s: seq<char>, s2: seq<char>, key: seq<char>, v: seq<char>, q: nat, eq: nat)
    returns (w: nat)
    requires q < |s| && IsLineStart(s, q) && NoneMatchBefore(s, q, key, true)
    requires AssignsAt(s, q, LineAt(s, q).end, key, eq) && NoLineBreak(v)
    requires Spliced(s, eq + 1, LineAt(s, q).end, v, s2)
    ensures WrittenSite(s2, key, v, q, eq, w) && w == LineAt(s, q).width
  {
    w := LineAt(s, q).width;
    RewrittenLine(s, q, key, eq, v, s2);
    ScanToSite(s, s2, q, key);
    ScansStopAt(s2, q, key, eq);
  }

  /** A line start before which nothing matches, and which matches, is where the scan stops. */
  lemma ScanStopsAt(s: seq<char>, q: nat, key: seq<char>, varOnly: bool)
    requires q < |s| && IsLineStart(s, q) && NoneMatchBefore(s, q, key, varOnly)
    requires LineMatch(s, q, key, varOnly) != NoMatch
    ensures FindLine(s, 0, key, varOnly) == Some(q)
  {
    ScanSkips(s, 0, q, key, varOnly);
  }

  /** A line that assigns the key, after no line that matches it, is where both scans stop. */
  lemma ScansStopAt(s: seq<char>, q: nat, key: seq<char>, eq: int)
    requires q < |s| && IsLineStart(s, q)
    requires NoneMatchBefore(s, q, key, false) && NoneMatchBefore(s, q, key, true)
    requires AssignsAt(s, q, LineAt(s, q).end, key, eq)
    ensures FindLine(s, 0, key, false) == Some(q) && FindLine(s, 0, key, true) == Some(q)
  {
    MatchLineMeaning(s, q, LineAt(s, q).end, key, false, eq);
    MatchLineMeaning(s, q, LineAt(s, q).end, key, true, eq);
    ScanStopsAt(s, q, key, false);
    ScanStopsAt(s, q, key, true);
  }

  /** A value that lookup can return: non-empty, no leading or trailing space, no line break. */
  predicate ReadableValue(v: seq<char>) {
    0 < |v| && v[0] != ' ' && v[|v| - 1] != ' ' && NoLineBreak(v)
  }

  /**
   * The facts RewriteSite establishes about the new content s2: the line at q assigns the
   * key with its '=' at eq, holds exactly `v` after it, and is the first line scanned to.
   */
  predicate WrittenSite(s2: seq<char>, key: seq<char>, v: seq<char>, q: nat, eq: nat, w: nat)
  {
    q <= eq && eq + 1 + |v| <= |s2| && s2[eq + 1..eq + 1 + |v|] == v &&
    q < |s2| && LineAt(s2, q) == Line(q, eq + |v|, w) &&
    AssignsAt(s2, q, eq + |v|, key, eq) &&
    FindLine(s2, 0, key, false) == Some(q) && FindLine(s2, 0, key, true) == Some(q)
  }

  /** Looking the key up at a written site returns the value written there. */
  lemma LookupAtSite(s2: seq<char>, key: seq<char>, v: seq<char>, q: nat, eq: nat, w: nat)
    requires WrittenSite(s2, key, v, q, eq, w) && ReadableValue(v) && |v| < MaxValLen
    ensures Lookup(s2, key) == Success(v)
  {
    var e2 := eq + |v|;
    assert s2[eq + 1] == v[0] && s2[e2] == v[|v| - 1];
    assert ValueBegins(s2, eq, eq + 1, e2);
    assert LineMatch(s2, q, key, false) == Found(eq + 1) by {
      MatchLineMeaning(s2, q, e2, key, false, eq);
    }
    LookupFound(s2, q, key, Found(eq + 1));
    assert TrimEnd(s2, q, e2) == e2;
  }

  /** At a written site the update scan finds the value right after the '='. */
  lemma SiteHoldsValue(s2: seq<char>, key: seq<char>, v: seq<char>, q: nat, eq: nat, w: nat)
    requires WrittenSite(s2, key, v, q, eq, w)
    ensures LineMatch(s2, q, key, true) == Found(eq + 1)
    ensures eq + 1 <= LineAt(s2, q).end + 1 && s2[eq + 1..LineAt(s2, q).end + 1] == v
  {
    MatchLineMeaning(s2, q, eq + |v|, key, true, eq);
  }

  /** Writing, at the line the update scan stops at, the value already there changes nothing. */
  lemma UpdateInPlace(s: seq<char>, cap: nat, key: seq<char>, v: seq<char>, q: nat, o: nat)
    requires q < |s| && FindLine(s, 0, key, true) == Some(q) && |v| < MaxValLen
    requires LineMatch(s, q, key, true) == Found(o) && o <= LineAt(s, q).end + 1
    requires s[o..LineAt(s, q).end + 1] == v
    ensures Update(s, cap, key, v) == Success(s)
  {
    UpdateFound(s, cap, q, key, v, Found(o));
    RewriteSame(s, cap, o, LineAt(s, q).end, v);
  }

  /** update(key, v) followed by lookup(key) returns v. */
  lemma LookupAfterUpdate(s: seq<char>, cap: nat, key: seq<char>, v: seq<char>, s2: seq<char>)
    requires Update(s, cap, key, v) == Success(s2) && ReadableValue(v)
    ensures Lookup(s2, key) == Success(v)
  {
    var q, eq := UpdateTarget(s, cap, key, v, s2);
    var w := RewriteSite(s, s2, key, v, q, eq);
    LookupAtSite(s2, key, v, q, eq, w);
  }

  /** Updating a key to the value it was just given changes nothing. */
  lemma UpdateIdempotent(s: seq<char>, cap: nat, key: seq<char>, v: seq<char>, s2: seq<char>)
    requires Update(s, cap, key, v) == Success(s2) && NoLineBreak(v)
    ensures Update(s2, cap, key, v) == Success(s2)
  {
    var q, eq := UpdateTarget(s, cap, key, v, s2);
    var w := RewriteSite(s, s2, key, v, q, eq);
    SiteHoldsValue(s2, key, v, q, eq, w);
    UpdateInPlace(s2, cap, key, v, q, eq + 1);
  }

  // ---------------------------------------------------------------- the C API over the buffer

  /** The line the lookup scan stops at decides the outcome of Lookup. */
  lemma LookupFound(s: seq<char>, start: nat, key: seq<char>, m: Match)
    requires start < |s| && FindLine(s, 0, key, false) == Some(start) && m == LineMatch(s, start, key, false)
    ensures m.KeyNoValue? ==> Lookup(s, key) == Failure(ValNotFound)
    ensures m.Found? ==>
              start <= m.offset <= LineAt(s, start).end && s[m.offset] != ' ' &&
              Lookup(s, key) == ValueOf(s, start, LineAt(s, start).end, m.offset)
  {
  }

  /** The line the update scan stops at is the one Update rewrites, after its '='. */
  lemma UpdateFound(s: seq<char>, cap: nat, start: nat, key: seq<char>, v: seq<char>, m: Match)
    requires start < |s| && FindLine(s, 0, key, true) == Some(start) && |v| < MaxValLen
    requires m == LineMatch(s, start, key, true)
    ensures m.Found? && start <= m.offset <= LineAt(s, start).end + 1
    ensures Update(s, cap, key, v) == Rewrite(s, cap, m.offset, LineAt(s, start).end, v)
  {
    FindLineFirstMatch(s, 0, key, true);
  }

  /** wyini_init: every field zero or NULL. */
  method Init(wb: IniBuffer)
    modifies wb
    ensures wb.IsClean() && wb.Valid()
  {
    wb.maxFileSize := 0;
    wb.bufferLen := 0;
    wb.buffer := null;
    wb.valBuffer := null;
  }

  /** wyini_clean: releases both buffers and zeroes the sizes; the same end state from any state. */
  method Clean(wb: IniBuffer)
    modifies wb
    ensures wb.IsClean() && wb.Valid()
  {
    wb.maxFileSize := 0;
    wb.bufferLen := 0;
    if wb.buffer != null {
      wb.buffer := null;
    }
    if wb.valBuffer != null {
      wb.valBuffer := null;
    }
  }

  /**
   * wyini_open: clean, then load `file` (the bytes wyini_read_file would read, None when the
   * file cannot be opened or read) into a buffer of capacity maxSize, then allocate the value
   * scratch area (valAllocOk says whether that allocation succeeds). Every failure is -1,
   * MemoryErr, and ends in the clean state.
   */
  method Open(file: Option<seq<char>>, maxSize: nat, valAllocOk: bool, wb: IniBuffer) returns (st: Status)
    modifies wb
    ensures wb.Valid()
    ensures st == Ok <==> file.Some? && 1 <= |file.value| < maxSize && valAllocOk
    ensures st == Ok ==>
              wb.Content() == file.value && wb.maxFileSize == maxSize &&
              fresh(wb.buffer) && fresh(wb.valBuffer)
    ensures st != Ok ==> st == MemoryErr && st.Code() == -1 && wb.IsClean()
  {
    Clean(wb);
    st := MemoryErr;
    if file.Some? && 1 <= |file.value| < maxSize {
      var data := file.value;
      wb.buffer := new char[maxSize](i => if 0 <= i < |data| then data[i] else '\0');
      wb.bufferLen := |data|;
      wb.maxFileSize := maxSize;
      if valAllocOk {
        wb.valBuffer := new char[MaxValLen];
        st := Ok;
      }
    }
    if st != Ok {
      Clean(wb);
    }
  }

  /**
   * wyini_save: with no buffer, or at most one byte of content, there is nothing to save;
   * otherwise the content is handed to the external sink (sinkOk: whether it was written),
   * whose failure is -1, MemoryErr.
   */
  method Save(sinkOk: bool, wb: IniBuffer) returns (st: Status, handed: seq<char>)
    requires wb.Valid()
    ensures wb.buffer == null || wb.bufferLen <= 1 ==> st == MemoryErr && handed == []
    ensures wb.buffer != null && wb.bufferLen > 1 ==>
              handed == wb.Content() && st == (if sinkOk then Ok else MemoryErr)
  {
    if wb.buffer == null || wb.bufferLen <= 1 {
      return MemoryErr, [];
    }
    handed := wb.buffer[..wb.bufferLen];
    st := if sinkOk then Ok else MemoryErr;
  }

  /** memcpy(m_val_buffer, m_buffer + from, n), then m_val_buffer[n] = 0. */
  method CopyValue(from: nat, n: nat, wb: IniBuffer, ghost s: seq<char>)
    requires wb.Valid() && wb.buffer != null && s == wb.Content() && from + n <= |s| && n < MaxValLen
    modifies wb.valBuffer
    ensures wb.Valid() && wb.Content() == s
    ensures wb.valBuffer[..n] == s[from..from + n] && wb.valBuffer[n] == '\0'
  {
    var val := wb.buffer[from..from + n];
    assert s == wb.buffer[..wb.bufferLen];
    assert val == s[from..from + n];
    Memcpy(wb.valBuffer, 0, val);
    wb.valBuffer[n] := '\0';
    assert wb.valBuffer[..n] == val;
    assert wb.Content() == s;
  }

  /**
   * The branch of wyini_get_var_val for a line whose value begins at `off`: trim the
   * trailing spaces of the line [start, end], then copy the value and its terminating 0
   * into the scratch area when it is shorter than MaxValLen, and report NotFound otherwise.
   */
  method ReportValue(start: nat, end: nat, off: nat, wb: IniBuffer, ghost s: seq<char>) returns (st: Status)
    requires wb.Valid() && wb.buffer != null && s == wb.Content()
    requires start <= off <= end < |s| && s[off] != ' '
    modifies wb.valBuffer
    ensures wb.Valid() && wb.Content() == s
    ensures match ValueOf(s, start, end, off)
            case Success(v) => st == Ok && wb.valBuffer[..|v|] == v && wb.valBuffer[|v|] == '\0'
            case Failure(e) => st == e
  {
    TrimEndDropsSpaces(s, start, end);
    var trimmed := RemoveEndingWhitespace(start, end, wb);
    var valLen := trimmed - off + 1;
    if valLen < MaxValLen {
      CopyValue(off, valLen, wb, s);
      return Ok;
    }
    return NotFound;
  }

  /**
   * The line loop of wyini_get_var_val and wyini_write_val: from offset 0, take the next line
   * (wyini_get_nextline), stop at the first one that matches `key` in the given mode
   * (wyini_find_var_val_inline), otherwise move past its terminator. The scan stops where
   * FindLine does, or reaches the end of the content when FindLine finds nothing.
   */
  method ScanLines(varOnly: bool, key: seq<char>, wb: IniBuffer, ghost s: seq<char>)
    returns (start: nat, end: int, m: Match)
    requires wb.Valid() && wb.buffer != null && s == wb.Content()
    ensures m == NoMatch <==> FindLine(s, 0, key, varOnly).None?
    ensures m != NoMatch ==>
              FindLine(s, 0, key, varOnly) == Some(start) &&
              end == LineAt(s, start).end && m == LineMatch(s, start, key, varOnly)
  {
    var maxLen := wb.bufferLen;
    start, end, m := 0, 0, NoMatch;
    while start < maxLen
      invariant start <= maxLen && (start == maxLen || IsLineStart(s, start))
      invariant NoneMatchBefore(s, start, key, varOnly)
      invariant m == NoMatch
    {
      var width;
      end, width := GetNextline(start, wb);
      m := FindVarValInline(varOnly, start, end, key, wb);
      ScanStep(s, start, end, width, key, varOnly, m);
      if m != NoMatch {
        break;
      }
      start := end + width + 1;
    }
    ScanSkips(s, 0, start, key, varOnly);
  }

  /**
   * wyini_get_var_val: MemoryErr without a buffer; otherwise the outcome of Lookup, with a
   * found value copied into the scratch area followed by a 0 byte. The content is not changed.
   */
  method GetVarVal(key: seq<char>, wb: IniBuffer) returns (st: Status)
    requires wb.Valid()
    modifies wb.valBuffer
    ensures wb.Valid() && wb.Content() == old(wb.Content())
    ensures wb.buffer == null ==> st == MemoryErr
    ensures wb.buffer != null ==>
              match Lookup(old(wb.Content()), key)
              case Success(v) => st == Ok && wb.valBuffer[..|v|] == v && wb.valBuffer[|v|] == '\0'
              case Failure(e) => st == e
  {
    if wb.buffer == null {
      return MemoryErr;
    }
    ghost var s := wb.Content();
    var start, end, m := ScanLines(false, key, wb, s);
    if m != NoMatch {
      LookupFound(s, start, key, m);
    }
    if m.Found? {
      st := ReportValue(start, end, m.offset, wb, s);
    } else if m.KeyNoValue? {
      st := ValNotFound;
    } else {
      st := NotFound;
    }
  }

  /**
   * wyini_write_val: MemoryErr without a buffer or for a value of MaxValLen bytes or more;
   * otherwise the first line matched in key-only mode is rewritten in place (the outcome of
   * Update), and a failed update leaves the buffer as it was.
   */
  method WriteVal(key: seq<char>, v: seq<char>, wb: IniBuffer) returns (st: Status)
    requires wb.Valid()
    modifies wb`bufferLen, wb.buffer
    ensures wb.Valid()
    ensures wb.buffer == null ==> st == MemoryErr
    ensures wb.buffer != null ==>
              Update(old(wb.Content()), wb.maxFileSize, key, v) ==
                if st == Ok then Success(wb.Content()) else Failure(st)
    ensures st != Ok ==> wb.bufferLen == old(wb.bufferLen) && (wb.buffer != null ==> unchanged(wb.buffer))
  {
    if wb.buffer == null {
      return MemoryErr;
    }
    if |v| >= MaxValLen {
      return MemoryErr;
    }
    ghost var s := wb.Content();
    var start, end, m := ScanLines(true, key, wb, s);
    if m != NoMatch {
      UpdateFound(s, wb.maxFileSize, start, key, v, m);
      st := WriteValInline(m.offset, end, v, wb);
    } else {
      st := NotFound;
    }
  }

  // ---------------------------------------------------------------- the source as written

  /** The line loop of the source with wyini_find_var_val_inline as written. */
  function FindLineAsWritten(s: seq<char>, start: nat, key: seq<char>, varOnly: bool): (r: Option<nat>)
    requires start <= |s|
    ensures r.Some? ==> start <= r.value < |s|
    decreases |s| - start
  {
    if start == |s| then None
    else
      var ln := LineAt(s, start);
      if MatchLineAsWritten(s, start, ln.end, key, varOnly) != NoMatch then Some(start)
      else FindLineAsWritten(s, ln.Next(), key, varOnly)
  }

  /**
   * wyini_get_var_val as written: the first line the as-written matcher accepts in value
   * mode supplies the value; its -1 for an empty right-hand side sends the scan on.
   */
  function LookupAsWritten(s: seq<char>, key: seq<char>): (r: Outcome<seq<char>>)
    ensures r.Failure? ==> r.error == NotFound
  {
    match FindLineAsWritten(s, 0, key, false)
    case None => Failure(NotFound)
    case Some(p) =>
      var end := LineAt(s, p).end;
      match MatchLineAsWritten(s, p, end, key, false)
      case Found(off) => ValueOf(s, p, end, off)
      case _ => Failure(NotFound)  // not reached: the scan stops only at a matching line
  }

  /**
   * wyini_write_val as written: the as-written key-only matcher picks the line and offset,
   * and wyini_write_val_inline as written rewrites from there.
   */
  function UpdateAsWritten(s: seq<char>, cap: nat, key: seq<char>, v: seq<char>): (r: Outcome<seq<char>>)
    ensures r.Failure? ==> r.error == MemoryErr || r.error == NotFound
  {
    if |v| >= MaxValLen then Failure(MemoryErr)
    else
      match FindLineAsWritten(s, 0, key, true)
      case None => Failure(NotFound)
      case Some(p) =>
        var end := LineAt(s, p).end;
        match MatchLineAsWritten(s, p, end, key, true)
        case Found(off) => RewriteAsWritten(s, cap, off, end, v)
        case _ => Failure(NotFound)  // not reached: the scan stops only at a matching line
  }
}
