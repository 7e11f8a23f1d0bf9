/*
 * Trailing-space trimming and the in-place rewrite of a value
 * (src/WY_IniWriteAgent.c, src/WY_IniWriteAgent.h).
 */
module IniWrite {
  import opened IniDefs

  // ---------------------------------------------------------------- trimming

  /** The last index in [start, end] that is not a trailing space (start when all are spaces). */
  function TrimEnd(s: seq<char>, start: nat, end: nat): (r: nat)
    requires start <= end < |s|
    ensures start <= r <= end
    ensures r == start || s[r] != ' '
    decreases end - start
  {
    if s[end] == ' ' && end > start then TrimEnd(s, start, end - 1) else end
  }

  /** Only spaces follow the trimmed end. */
  lemma {:induction false} TrimEndDropsSpaces(s: seq<char>, start: nat, end: nat)
    requires start <= end < |s|
    ensures forall k :: TrimEnd(s, start, end) < k <= end ==> s[k] == ' '
    decreases end - start
  {
    if s[end] == ' ' && end > start {
      TrimEndDropsSpaces(s, start, end - 1);
    }
  }

  /**
   * wyini_remove_ending_whitespace: move `end` back over spaces, never below `start`.
   * Only reads the buffer.
   */
  method RemoveEndingWhitespace(start: nat, end: nat, wb: IniBuffer) returns (r: nat)
    requires wb.Valid() && wb.buffer != null && start <= end < wb.bufferLen
    ensures r == TrimEnd(wb.Content(), start, end)
  {
    var buf := wb.buffer;
    r := end;
    while buf[r] == ' ' && r > start
      invariant start <= r <= end
      invariant TrimEnd(wb.Content(), start, r) == TrimEnd(wb.Content(), start, end)
    {
      r := r - 1;
    }
  }

  // ---------------------------------------------------------------- the rewrite, as a function

  /**
   * The content after the value occupying [start, end] is replaced by `v` in a buffer of
   * capacity `cap` (wyini_write_val_inline): a longer value needs |v| - (end - start + 1)
   * more bytes and fails with MemoryErr unless the grown content stays below `cap`.
   */
  function Rewrite(s: seq<char>, cap: nat, start: nat, end: int, v: seq<char>): (r: Outcome<seq<char>>)
    requires start <= end + 1 <= |s|
    ensures r.Failure? <==> |v| > end - start + 1 && |s| + (|v| - (end - start + 1)) >= cap
    ensures r.Failure? ==> r.error == MemoryErr
    ensures r.Success? ==>
              |r.value| == |s| - (end - start + 1) + |v| &&
              r.value[..start] == s[..start] &&
              r.value[start..start + |v|] == v &&
              r.value[start + |v|..] == s[end + 1..]
    ensures r.Success? && |s| < cap ==> |r.value| < cap
  {
    var currentSpace := end - start + 1;
    if currentSpace < |v| && |s| + (|v| - currentSpace) >= cap then Failure(MemoryErr)
    else Success(s[..start] + v + s[end + 1..])
  }

  /** Writing over a value the bytes it already holds leaves the content as it was. */
  lemma RewriteSame(s: seq<char>, cap: nat, start: nat, end: int, v: seq<char>)
    requires start <= end + 1 <= |s| && s[start..end + 1] == v
    ensures Rewrite(s, cap, start, end, v) == Success(s)
  {
    assert s[..start] + v + s[end + 1..] == s;
  }

  /**
   * wyini_write_val_inline as written: the grow branch moves the bytes and writes the
   * value but leaves m_buffer_len unchanged, so the content keeps its old length.
   */
  function RewriteAsWritten(s: seq<char>, cap: nat, start: nat, end: int, v: seq<char>): (r: Outcome<seq<char>>)
    requires start <= end + 1 <= |s|
    ensures r.Success? && |v| > end - start + 1 ==> |r.value| == |s|
  {
    var currentSpace := end - start + 1;
    if currentSpace >= |v| then Success(s[..start] + v + s[end + 1..])
    else if |s| + (|v| - currentSpace) >= cap then Failure(MemoryErr)
    else Success((s[..start] + v + s[end + 1..])[..|s|])
  }

  /** As written, every successful grow drops the last |v| - (end - start + 1) bytes of the content. */
  lemma AsWrittenGrowTruncates(s: seq<char>, cap: nat, start: nat, end: int, v: seq<char>)
    requires start <= end + 1 <= |s| && |v| > end - start + 1
    requires RewriteAsWritten(s, cap, start, end, v).Success?
    ensures Rewrite(s, cap, start, end, v).Success?
    ensures RewriteAsWritten(s, cap, start, end, v).value == Rewrite(s, cap, start, end, v).value[..|s|]
    ensures |Rewrite(s, cap, start, end, v).value| > |s|
  {
  }

  // ---------------------------------------------------------------- memmove and memcpy

  /** memmove(a + dst, a + src, n): copies n bytes in an order that is safe when the ranges overlap. */
  method Memmove(a: array<char>, dst: nat, src: nat, n: nat)
    requires dst + n <= a.Length && src + n <= a.Length
    modifies a
    ensures forall k :: 0 <= k < a.Length && !(dst <= k < dst + n) ==> a[k] == old(a[k])
    ensures forall k :: dst <= k < dst + n ==> a[k] == old(a[k - dst + src])
  {
    if dst <= src {
      // moving left: copy from the near end first
      var i := 0;
      while i < n
        invariant 0 <= i <= n
        invariant forall k :: 0 <= k < a.Length && !(dst <= k < dst + i) ==> a[k] == old(a[k])
        invariant forall k :: dst <= k < dst + i ==> a[k] == old(a[k - dst + src])
      {
        a[dst + i] := a[src + i];
        i := i + 1;
      }
    } else {
      // moving right: copy from the far end first
      var i := n;
      while i > 0
        invariant 0 <= i <= n
        invariant forall k :: 0 <= k < a.Length && !(dst + i <= k < dst + n) ==> a[k] == old(a[k])
        invariant forall k :: dst + i <= k < dst + n ==> a[k] == old(a[k - dst + src])
      {
        i := i - 1;
        a[dst + i] := a[src + i];
      }
    }
  }

  /** memcpy(a + dst, v, |v|). */
  method Memcpy(a: array<char>, dst: nat, v: seq<char>)
    requires dst + |v| <= a.Length
    modifies a
    ensures forall k :: 0 <= k < a.Length && !(dst <= k < dst + |v|) ==> a[k] == old(a[k])
    ensures forall k :: dst <= k < dst + |v| ==> a[k] == v[k - dst]
  {
    var i := 0;
    while i < |v|
      invariant 0 <= i <= |v|
      invariant forall k :: 0 <= k < a.Length && !(dst <= k < dst + i) ==> a[k] == old(a[k])
      invariant forall k :: dst <= k < dst + i ==> a[k] == v[k - dst]
    {
      a[dst + i] := v[i];
      i := i + 1;
    }
  }

  // ---------------------------------------------------------------- the rewrite, in place

  /**
   * wyini_write_val_inline with the grow branch raising m_buffer_len: replace the value
   * occupying [start, end] by `v`, moving the rest of the content (and the byte after it)
   * left or right. A rewrite that would not fit is refused before anything is moved.
   */
  method WriteValInline(start: nat, end: int, v: seq<char>, wb: IniBuffer) returns (st: Status)
    requires wb.Valid() && wb.buffer != null && start <= end + 1 && end < wb.bufferLen
    modifies wb`bufferLen, wb.buffer
    ensures wb.Valid()
    ensures Rewrite(old(wb.Content()), wb.maxFileSize, start, end, v) ==
              if st == Ok then Success(wb.Content()) else Failure(st)
    ensures st != Ok ==> wb.bufferLen == old(wb.bufferLen) && unchanged(wb.buffer)
  {
    var buf, len := wb.buffer, wb.bufferLen;
    ghost var s := wb.Content();
    var currentSpace := end - start + 1;
    if currentSpace >= |v| {
      if currentSpace > |v| {
        Memmove(buf, start + |v|, end + 1, len - end);
        wb.bufferLen := len - (currentSpace - |v|);
      }
      Memcpy(buf, start, v);
    } else {
      var additional := |v| - currentSpace;
      if additional + len >= wb.maxFileSize {
        return MemoryErr;
      }
      Memmove(buf, start + |v|, end + 1, len - end);
      Memcpy(buf, start, v);
      wb.bufferLen := len + additional;
    }
    ghost var t := s[..start] + v + s[end + 1..];
    assert |t| == wb.bufferLen;
    forall k | 0 <= k < |t|
      ensures buf[k] == t[k]
    {
      if k >= start + |v| {
        assert t[k] == s[k - start - |v| + end + 1];
      }
    }
    assert wb.Content() == t;
    st := Ok;
  }
}
