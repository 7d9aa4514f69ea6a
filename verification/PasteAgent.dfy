/**
  kclipd's paste callbacks and poll pass, updating the table in place.

  Each method is proved to do what the corresponding function of `PasteTable` says;
  the theorems about whole runs are about those functions.
 */
module PasteAgent {
  import opened Basics
  import opened PasteTable

  class Agent {
    var texts: map<nat, TextCell>
    var sources: map<nat, nat>
    const writers: array<Writer>
    var nWriters: nat

    // What each source was made for, what each client has been sent, what it asked for.
    ghost var offered: map<nat, Bytes>
    ghost var pipes: map<nat, Bytes>
    ghost var promised: map<nat, Bytes>

    ghost predicate Shape()
      reads this, writers
    {
      writers.Length == MAX_WRITERS && nWriters <= MAX_WRITERS
    }

    ghost function State(): Pastes
      reads this, writers
      requires Shape()
    {
      Pastes(texts, sources, writers[..nWriters], offered, pipes, promised)
    }

    ghost predicate Valid()
      reads this, writers
    {
      Shape() && Inv(State())
    }

    constructor ()
      ensures Valid() && State() == EMPTY && fresh(writers)
    {
      texts, sources, nWriters := map[], map[], 0;
      writers := new Writer[MAX_WRITERS](_ => Writer(0, 0, 0));
      offered, pipes, promised := map[], map[], map[];
    }

    /** text_unref. */
    method TextUnref(t: nat)
      requires t in texts
      modifies `texts
      ensures texts == Unref(old(texts), t)
    {
      var refs := texts[t].refs - 1;
      texts := texts[t := texts[t].(refs := refs)];
      if refs == 0 {
        texts := texts - {t};
        assert texts == old(texts) - {t};
      }
    }

    /** writer_close. */
    method WriterClose(i: nat)
      requires Shape() && i < nWriters && writers[i].text in texts
      modifies `texts, `nWriters, writers
      ensures Shape()
      ensures State() == old(State()).(texts := Unref(old(texts), old(writers[i].text)),
                                       writers := SwapRemove(old(writers[..nWriters]), i))
    {
      TextUnref(writers[i].text);
      nWriters := nWriters - 1;
      writers[i] := writers[nWriters];
    }

    /** handle_offer's allocations. */
    method Offered(t: nat, s: nat, bytes: Bytes)
      requires Valid() && t !in texts && s !in sources
      modifies `texts, `sources, `offered
      ensures Valid() && State() == Allocate(old(State()), t, s, bytes)
    {
      AllocateKeepsInv(State(), t, s, bytes);
      texts := texts[t := TextCell(1, bytes)];
      sources := sources[s := t];
      offered := offered[s := bytes];
    }

    /** source_cancelled. */
    method SourceCancelled(s: nat)
      requires Valid() && s in sources
      modifies `texts, `sources
      ensures Valid() && State() == Cancel(old(State()), s)
    {
      CancelKeepsInv(State(), s);
      TextUnref(sources[s]);
      sources := sources - {s};
    }

    method Append(w: Writer)
      requires Shape() && nWriters < MAX_WRITERS
      modifies `nWriters, writers
      ensures Shape() && State() == old(State()).(writers := old(writers[..nWriters]) + [w])
    {
      writers[nWriters] := w;
      nWriters := nWriters + 1;
    }

    /** source_send. */
    method SourceSend(s: nat, fd: nat, script: seq<WriteResult>)
      requires Valid() && s in sources && fd !in pipes
      modifies `texts, `nWriters, `pipes, `promised, writers
      ensures Valid() && State() == Send(old(State()), s, fd, script)
    {
      hide Inv, Pump, Unref;
      SendKeepsInv(State(), s, fd, script);
      SourceHolds(State(), s);
      var t := sources[s];
      var bytes := texts[t].bytes;
      promised := promised[fd := bytes];
      if nWriters == MAX_WRITERS {
        pipes := pipes[fd := []];
        return;
      }
      texts := texts[t := texts[t].(refs := texts[t].refs + 1)];
      var done, off, sent := WriterPump(bytes, 0, script);
      assert sent == bytes[..off];
      pipes := pipes[fd := sent];
      if done {
        RefThenUnref(old(texts), t);
        TextUnref(t);
        return;
      }
      Append(Writer(fd, t, off));
    }

    /** Pump one writer in place, and close it when it is done. */
    method PumpWriter(i: nat, script: seq<WriteResult>)
      requires Valid() && i < nWriters && WriterOk(State(), writers[i])
      modifies `texts, `nWriters, `pipes, writers
      ensures Valid() && State() == PumpSlot(old(State()), i, script)
    {
      PumpSlotKeepsInv(State(), i, script);
      hide Inv, Pump;
      var w := writers[i];
      var done, off, sent := WriterPump(texts[w.text].bytes, w.off, script);
      SliceJoin(texts[w.text].bytes, 0, w.off, off);
      pipes := pipes[w.fd := pipes[w.fd] + sent];
      if done {
        WriterClose(i);
      } else {
        writers[i] := w.(off := off);
      }
    }

    /** The poll pass: slots from the last one polled down to 0. */
    method PollPass(nw: nat, ready: seq<bool>, scripts: seq<seq<WriteResult>>)
      requires Valid() && nw <= nWriters && nw == |ready| == |scripts|
      modifies `texts, `nWriters, `pipes, writers
      ensures Valid() && State() == Pass(old(State()), nw, ready, scripts)
    {
      hide Inv, PumpSlot, WriterOk;
      var i := nw;
      while i > 0
        invariant 0 <= i <= nw && Valid() && i <= nWriters
        invariant Pass(State(), i, ready, scripts) == Pass(old(State()), nw, ready, scripts)
      {
        i := i - 1;
        if ready[i] {
          PumpSlotInPass(State(), i, scripts[i]);
          PumpWriter(i, scripts[i]);
        }
      }
    }
  }

  lemma {:induction false} SourceHolds(p: Pastes, s: nat)
    requires Inv(p) && s in p.sources
    ensures p.sources[s] in p.texts && p.texts[p.sources[s]].refs > 0
  {
  }

  lemma {:induction false} RefThenUnref(texts: map<nat, TextCell>, t: nat)
    requires t in texts && texts[t].refs > 0
    ensures Unref(texts[t := texts[t].(refs := texts[t].refs + 1)], t) == texts
  {
  }
}
