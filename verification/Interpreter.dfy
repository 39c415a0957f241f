module Interpreter {
  /* Cbuf_ExecuteEx in place, refining the machine of module Script. */

  import opened CommandBuffer
  import opened Script
  import opened Tokenizer

  class Interpreter {
    const cbuf: Cbuf
    const lexer: Lexer

    constructor (cbuf: Cbuf, lexer: Lexer)
      ensures this.cbuf == cbuf && this.lexer == lexer
    {
      this.cbuf, this.lexer := cbuf, lexer;
    }

    ghost predicate Valid()
      reads this, cbuf, lexer
    {
      cbuf.Valid() && lexer.Valid() && cbuf.text != lexer.comToken
    }

    /** The scan for a line break. */
    method FindBreak() returns (i: nat)
      requires Valid()
      ensures i == BreakAt(cbuf.Contents(), 0, false)
    {
      ghost var c := cbuf.Contents();
      var size, quotes := cbuf.end - cbuf.start, 0;
      i := 0;
      while i < size
        invariant i <= size && 0 <= quotes
        invariant BreakAt(c, i, quotes % 2 == 1) == BreakAt(c, 0, false)
      {
        var ch := cbuf.text[cbuf.start + i];
        assert c[i] == ch;
        if ch == '\n' { break; }
        if ch == ';' && quotes % 2 == 0 { break; }
        if ch == '"' { quotes := quotes + 1; }
        i := i + 1;
      }
    }

    /** The line up to `i` is copied out and taken off the buffer. */
    method TakeLine(i: nat) returns (line: string)
      requires Valid() && i == BreakAt(cbuf.Contents(), 0, false) && cbuf.Contents() != ""
      modifies cbuf`start, cbuf`end
      ensures Valid() && line == FirstLine(old(cbuf.Contents())) && cbuf.Contents() == Rest(old(cbuf.Contents()))
    {
      ghost var c := cbuf.Contents();
      var size := cbuf.end - cbuf.start;
      if i < MAX_LINE {
        line := cbuf.text[cbuf.start..cbuf.start + i];
        assert line == c[..i];
        if i > 0 && line[i - 1] == '\r' {
          line := line[..i - 1];
          assert line == c[..i - 1];
        }
      } else {
        line := "";
      }
      if i == size {
        cbuf.start, cbuf.end := MAXCMDBUF / 2, MAXCMDBUF / 2;
      } else {
        cbuf.start := cbuf.start + i + 1;
        assert cbuf.Contents() == c[i + 1..];
      }
    }

    /** What a function does to the buffer. */
    method Perform(es: seq<Edit>)
      requires Valid()
      modifies cbuf`start, cbuf`end, cbuf.text
      ensures Valid() && cbuf.Contents() == Applied(old(cbuf.Contents()), es)
    {
      ghost var all := Applied(cbuf.Contents(), es);
      var rest := es;
      while rest != []
        invariant Valid() && Applied(cbuf.Contents(), rest) == all
        decreases |rest|
      {
        match rest[0] {
          case Insert(t) => cbuf.InsertText(t);
          case Append(t) => cbuf.AddText(t);
        }
        rest := rest[1..];
      }
    }

    /** An alias: a newline goes back into the buffer, and the value before it. */
    method PutBack(value: string)
      requires Valid()
      modifies cbuf`start, cbuf`end, cbuf.text
      ensures Valid() && cbuf.Contents() == Applied(old(cbuf.Contents()), [Insert("\n"), Insert(value)])
    {
      TwoEdits(cbuf.Contents(), Insert("\n"), Insert(value));
      cbuf.InsertText("\n");
      cbuf.InsertText(value);
    }

    /** Cmd_ExecuteString */
    method ExecuteString(w: World, line: string) returns (event: seq<string>)
      requires Valid() && !cbuf.wait
      modifies cbuf, cbuf.text, lexer, lexer.comToken
      ensures Valid() && event == Event(w, line) && cbuf.wait == Waits(w, line)
      ensures cbuf.Contents() == Applied(old(cbuf.Contents()), Edits(w, line))
    {
      ghost var c := cbuf.Contents();
      lexer.TokenizeString(w.expand(line));
      assert cbuf.Contents() == c;
      if |lexer.argv| == 0 { return []; }
      var name := Lower(lexer.argv[0]);
      if name in w.commands {
        if name == WAIT { cbuf.wait := true; } else { Perform(w.effect(line)); }
        return [line];
      }
      if name in w.cvars { return [line]; }
      if name in w.aliases {
        PutBack(w.aliases[name]);
        return [];
      }
      return [line];
    }

    /** One turn of the loop. */
    method ExecuteLine(w: World) returns (event: seq<string>)
      requires Valid() && !cbuf.wait && cbuf.Contents() != ""
      modifies cbuf, cbuf.text, lexer, lexer.comToken
      ensures Valid() && cbuf.wait == Waits(w, FirstLine(old(cbuf.Contents())))
      ensures event == Event(w, FirstLine(old(cbuf.Contents())))
      ensures cbuf.Contents() == Next(w, old(cbuf.Contents()))
    {
      var i := FindBreak();
      var line := TakeLine(i);
      event := ExecuteString(w, line);
    }

    method ClearWait()
      requires Valid()
      modifies cbuf`wait
      ensures Valid() && !cbuf.wait && cbuf.Contents() == old(cbuf.Contents())
    {
      cbuf.wait := false;
    }

    /** Cbuf_ExecuteEx: it ends, and does what the machine does. */
    method Execute(w: World, ghost rank: string -> nat) returns (log: seq<string>)
      requires Valid() && !cbuf.wait && Acyclic(w, rank)
      modifies cbuf, cbuf.text, lexer, lexer.comToken
      ensures Valid() && !cbuf.wait
      ensures var r := Run(w, rank, old(cbuf.Contents()), true);
        log == r.log && cbuf.Contents() == r.rest
    {
      ghost var all := Run(w, rank, cbuf.Contents(), true);
      log := [];
      while cbuf.end > cbuf.start
        invariant Valid() && !cbuf.wait && RunsOn(w, rank, cbuf.Contents(), log, all)
        decreases Loose(cbuf.Contents()), TextCost(w, rank, cbuf.Contents())
      {
        ghost var text, log0 := cbuf.Contents(), log;
        var event := ExecuteLine(w);
        log := log + event;
        RunStep(w, rank, text, log0, log, all);
        if cbuf.wait {
          ClearWait();
          break;
        }
      }
    }
  }
}
