module CommandBuffer {
  /* The command buffer of src/cmd.c: text in the middle of a fixed array, to which text
     is added at both ends. */

  const MAXCMDBUF := 16384

  /** Text at the end of the buffer, dropped if it does not fit. */
  function Added(content: string, text: string): (c: string)
  {
    if |content| + |text| <= MAXCMDBUF then content + text else content
  }

  /** A line at the front of the buffer, dropped if it does not fit. */
  function Inserted(text: string, content: string): (c: string)
  {
    if |text| + 1 + |content| <= MAXCMDBUF then text + "\n" + content else content
  }

  class Cbuf {
    const text: array<char>
    var start: nat
    var end: nat
    var wait: bool

    ghost predicate Valid()
      reads this
    {
      text.Length == MAXCMDBUF && start <= end <= MAXCMDBUF
    }

    function Contents(): (c: string)
      requires Valid()
      reads this, text
      ensures |c| == end - start
    {
      text[start..end]
    }

    /** Cbuf_Init */
    constructor ()
      ensures Valid() && fresh(text) && Contents() == "" && !wait
    {
      text := new char[MAXCMDBUF];
      start, end, wait := MAXCMDBUF / 2, MAXCMDBUF / 2, false;
    }

    /** memcpy of a string into the buffer. */
    method Paste(at: nat, s: string)
      requires Valid() && at + |s| <= MAXCMDBUF
      modifies text
      ensures text[at..at + |s|] == s
      ensures forall i :: 0 <= i < MAXCMDBUF && !(at <= i < at + |s|) ==> text[i] == old(text[i])
    {
      forall i | 0 <= i < |s| {
        text[at + i] := s[i];
      }
    }

    /** memmove of the contents within the buffer. */
    method MoveContents(to: nat)
      requires Valid() && to + (end - start) <= MAXCMDBUF
      modifies text
      ensures text[to..to + (end - start)] == old(Contents())
    {
      forall i | 0 <= i < end - start {
        text[to + i] := text[start + i];
      }
    }

    /** The contents and `s` behind them, moved to the middle of the buffer. */
    method AppendMoved(s: string, newStart: nat)
      requires Valid() && newStart + (end - start) + |s| <= MAXCMDBUF
      modifies this`start, this`end, text
      ensures Valid() && Contents() == old(Contents()) + s
    {
      ghost var c := Contents();
      var mid := newStart + (end - start);
      MoveContents(newStart);
      Paste(mid, s);
      assert text[newStart..mid] == c;
      start, end := newStart, mid + |s|;
      assert text[start..end] == text[newStart..mid] + text[mid..end];
    }

    /** Cbuf_AddTextEx */
    method AddText(s: string)
      requires Valid()
      modifies this`start, this`end, text
      ensures Valid() && Contents() == Added(old(Contents()), s)
    {
      if end + |s| <= MAXCMDBUF {
        ghost var c, mid := Contents(), end;
        Paste(end, s);
        end := end + |s|;
        assert text[start..mid] == c;
        assert text[start..end] == text[start..mid] + text[mid..end];
        return;
      }
      var newSize := end - start + |s|;
      if newSize > MAXCMDBUF { return; }
      AppendMoved(s, (MAXCMDBUF - newSize) / 2);
    }

    /** `s` and a newline just in front of the contents. */
    method PrependInPlace(s: string)
      requires Valid() && |s| < start
      modifies this`start, text
      ensures Valid() && Contents() == s + "\n" + old(Contents())
    {
      ghost var c, was := Contents(), start;
      Paste(start - |s| - 1, s);
      text[start - 1] := '\n';
      start := start - (|s| + 1);
      assert text[was..end] == c && text[start..was - 1] == s;
      assert text[start..end] == text[start..was - 1] + [text[was - 1]] + text[was..end];
    }

    /** `s`, a newline and the contents, moved to the middle of the buffer. */
    method PrependMoved(s: string, newStart: nat)
      requires Valid() && newStart + |s| + 1 + (end - start) <= MAXCMDBUF
      modifies this`start, this`end, text
      ensures Valid() && Contents() == s + "\n" + old(Contents())
    {
      ghost var c := Contents();
      var mid, size := newStart + |s| + 1, end - start;
      MoveContents(mid);
      Paste(newStart, s);
      text[mid - 1] := '\n';
      start, end := newStart, mid + size;
      assert text[mid..end] == c && text[start..mid - 1] == s;
      assert text[start..end] == text[start..mid - 1] + [text[mid - 1]] + text[mid..end];
    }

    /** Cbuf_InsertTextEx */
    method InsertText(s: string)
      requires Valid()
      modifies this`start, this`end, text
      ensures Valid() && Contents() == Inserted(s, old(Contents()))
    {
      if |s| < start {
        PrependInPlace(s);
        return;
      }
      var newSize := end - start + |s| + 1;
      if newSize > MAXCMDBUF { return; }
      PrependMoved(s, (MAXCMDBUF - newSize) / 2);
    }
  }
}
