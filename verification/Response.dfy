// The response object of src/core/connection.h and the functions that fill and drain
// its buffer: each method is proved to perform a run of `OutputProtocol`.
module Response {
  import opened Bytes
  import P = OutputProtocol
  import Head
  import HeaderPrinting

  const MYBUFSZ: nat := 10240

  class Response {
    var buf: array<byte>    // its length is `size`
    var len: nat
    var sent: nat
    var fsize: nat
    var fread: nat
    var needRefill: bool
    var hSent: bool
    var hOut: Head.Headers

    ghost var phase: P.Phase
    ghost var base: nat
    ghost var written: nat
    ghost var header: nat             // the length of the header block
    ghost var stream: seq<byte>       // the header block and the file
    ghost var delivered: seq<byte>    // what the peer has received

    constructor (hOut: Head.Headers)
      ensures Unused() && Contents() == [] && this.hOut == hOut && fsize == 0 && fresh(buf)
    {
      buf := new byte[MYBUFSZ];
      len, sent, fsize, fread, needRefill, hSent := 0, 0, 0, 0, false, false;
      this.hOut := hOut;
      phase, base, written, header, stream, delivered := P.Filling, 0, 0, 0, [], [];
    }

    // What is in the buffer.
    ghost function Contents(): seq<byte>
      reads this, buf
      requires len <= buf.Length
    {
      buf[..len]
    }

    ghost function View(): P.State
      reads this
    {
      P.State(phase, buf.Length, base, len, sent, fsize, fread, needRefill, written)
    }

    // Nothing has been printed or sent yet.
    ghost predicate Unused()
      reads this
    {
      && len == sent == fread == 0 && base == written == 0 && delivered == [] && !hSent
      && phase == P.Filling && buf.Length >= MYBUFSZ
    }

    // In the protocol: its invariant holds and the buffer is a window of the stream.
    ghost predicate Valid()
      reads this, buf
    {
      && hSent && P.Inv(View(), header) && |stream| == header + fsize
      && buf[..len] == stream[base..base + len]
    }

    // `realloc`: a larger buffer that begins with what the old one held.
    method Grow(size: nat)
      requires len <= buf.Length <= size
      modifies this`buf
      ensures buf.Length == size && fresh(buf) && Contents() == old(Contents())
    {
      var newdata := new byte[size];
      forall i | 0 <= i < len {
        newdata[i] := buf[i];
      }
      buf := newdata;
    }

    // Append to the buffer, growing it when the bytes do not fit; grows says whether
    // realloc succeeds then.
    method FillResp(rp: seq<byte>, grows: bool) returns (ok: bool)
      requires len <= buf.Length
      modifies this`buf, this`len, buf
      ensures ok == (grows || old(len) + |rp| <= old(buf.Length))
      ensures len <= buf.Length && old(buf.Length) <= buf.Length && (buf == old(buf) || fresh(buf))
      ensures Contents() == if ok then old(Contents()) + rp else old(Contents())
      ensures buf.Length ==
              if ok && old(len) + |rp| > old(buf.Length) then old(len) + |rp| + 1 else old(buf.Length)
    {
      if buf.Length < len + |rp| {
        if !grows {
          return false;
        }
        Grow(len + |rp| + 1);
      }
      forall i | 0 <= i < |rp| {
        buf[len + i] := rp[i];
      }
      len := len + |rp|;
      ok := true;
    }

    // Print the status line and the headers, once.  Allocations succeed.
    method CompileResp(status: seq<byte>) returns (ghost ks: seq<seq<byte>>)
      requires len <= buf.Length
      modifies this`buf, this`len, this`hSent, this`hOut, buf
      ensures hSent && len <= buf.Length && old(buf.Length) <= buf.Length && (buf == old(buf) || fresh(buf))
      ensures old(hSent) ==> hOut == old(hOut) && buf == old(buf) && Contents() == old(Contents())
      ensures !old(hSent) ==>
                && hOut == HeaderPrinting.WithCharset(old(hOut)) && HeaderPrinting.Lists(ks, hOut)
                && Contents() ==
                     old(Contents()) + status + HeaderPrinting.PrintEntries(ks, hOut) + HeaderPrinting.CRLF
    {
      ks := [];
      if hSent {
        return;
      }
      if HeaderPrinting.CONTENT_TYPE in hOut {
        hOut := hOut[HeaderPrinting.CONTENT_TYPE := hOut[HeaderPrinting.CONTENT_TYPE] + HeaderPrinting.CHARSET];
      }
      var ok := FillResp(status, true);
      ks := FillEntries();
      ok := FillResp(HeaderPrinting.CRLF, true);
      hSent := true;
    }

    // The entries of the header map one after the other.
    method FillEntries() returns (ghost ks: seq<seq<byte>>)
      requires len <= buf.Length
      modifies this`buf, this`len, buf
      ensures len <= buf.Length && old(buf.Length) <= buf.Length && (buf == old(buf) || fresh(buf))
      ensures HeaderPrinting.Lists(ks, hOut)
      ensures Contents() == old(Contents()) + HeaderPrinting.PrintEntries(ks, hOut)
    {
      ks := [];
      var left := hOut.Keys;
      while left != {}
        invariant len <= buf.Length && old(buf.Length) <= buf.Length && (buf == old(buf) || fresh(buf))
        invariant left <= hOut.Keys && forall k :: k in ks <==> k in hOut && k !in left
        invariant Contents() == old(Contents()) + HeaderPrinting.PrintEntries(ks, hOut)
      {
        var k :| k in left;
        FillEntry(k, hOut[k]);
        HeaderPrinting.PrintAppends(ks, k, hOut);
        ks := ks + [k];
        left := left - {k};
      }
    }

    method FillEntry(k: seq<byte>, v: seq<byte>)
      requires len <= buf.Length
      modifies this`buf, this`len, buf
      ensures len <= buf.Length && old(buf.Length) <= buf.Length && (buf == old(buf) || fresh(buf))
      ensures Contents() == old(Contents()) + HeaderPrinting.PrintEntry(k, v)
    {
      ghost var c, x, v' := Contents(), Head.CString(k), Head.CString(v);
      var ok := FillResp(Head.CString(k), true);
      ok := FillResp(HeaderPrinting.COLON_SPACE, true);
      ok := FillResp(Head.CString(v), true);
      ok := FillResp(HeaderPrinting.CRLF, true);
      HeaderPrinting.EntryJoins(c, x, v');
    }

    // One call of sp_responce_senfile on a response that is to send the file; arriving
    // is what read() does in turn, until the buffer has to be drained.
    method SendFile(status: seq<byte>, file: seq<byte>, arriving: seq<P.Moved>)
      returns (ghost es: seq<P.Event>, ghost ks: seq<seq<byte>>)
      requires fsize == |file|
      requires Unused() || (Valid() && phase == P.Filling && stream[header..] == file)
      modifies this`buf, this`len, this`hSent, this`hOut, this`fread, this`needRefill
      modifies this`phase, this`header, this`stream, buf
      ensures Valid() && stream[header..] == file && delivered == old(delivered)
      ensures !old(hSent) ==>
                Starts(View(), es) && es == P.FillEvents(P.Begin(buf.Length, header, fsize), arriving)
      ensures old(hSent) ==>
                P.Possible(old(View()), es) && P.Run(old(View()), es) == View() && es == P.FillEvents(old(View()), arriving)
      ensures old(hSent) ==> header == old(header) && stream == old(stream)
      ensures !old(hSent) ==> PrintedHeader(status, ks, old(hOut))
    {
      if hSent {
        ks := CompileResp(status);
        needRefill := true;
      } else {
        ks := Prepare(status, file);
      }
      es := FillFromFile(file, arriving);
    }

    // The first call prints the header block.
    method Prepare(status: seq<byte>, file: seq<byte>) returns (ghost ks: seq<seq<byte>>)
      requires Unused() && fsize == |file|
      modifies this`buf, this`len, this`hSent, this`hOut, this`needRefill, this`header, this`stream, buf
      ensures Valid() && stream[header..] == file && View() == P.Begin(buf.Length, header, fsize)
      ensures header <= buf.Length && (buf == old(buf) || fresh(buf))
      ensures PrintedHeader(status, ks, old(hOut))
    {
      ks := CompileResp(status);
      needRefill := true;
      header, stream := len, Contents() + file;
      assert old(Contents()) + status == status;
      assert stream[..header] == Contents() && stream[header..] == file;
    }

    // The stream begins with the printed header map.
    ghost predicate PrintedHeader(status: seq<byte>, ks: seq<seq<byte>>, out: Head.Headers)
      reads this
    {
      && hOut == HeaderPrinting.WithCharset(out) && HeaderPrinting.Lists(ks, hOut) && header <= |stream|
      && stream[..header] == status + HeaderPrinting.PrintEntries(ks, hOut) + HeaderPrinting.CRLF
    }

    // The state was reached from the beginning of the protocol by these events.
    ghost predicate Starts(t: P.State, es: seq<P.Event>)
      reads this
    {
      var s := P.Begin(t.size, header, t.fsize);
      header <= t.size && P.Possible(s, es) && P.Run(s, es) == t
    }

    // The read loop: what read() answers decides what happens.
    method FillFromFile(file: seq<byte>, arriving: seq<P.Moved>) returns (ghost es: seq<P.Event>)
      requires Valid() && phase == P.Filling && stream[header..] == file
      modifies this`len, this`fread, this`needRefill, this`phase, buf
      ensures Valid() && P.Possible(old(View()), es) && P.Run(old(View()), es) == View()
      ensures es == P.FillEvents(old(View()), arriving)
    {
      es := [];
      var i := 0;
      ghost var s0, all := View(), P.FillEvents(View(), arriving);
      while i < |arriving|
        invariant i <= |arriving| && Valid() && phase == P.Filling
        invariant P.Possible(s0, es) && P.Run(s0, es) == View()
        invariant all == es + P.FillEvents(View(), arriving[i..])
      {
        ghost var s := View();
        assert arriving[i..][1..] == arriving[i + 1..];
        ghost var e;
        var again;
        again, e := FillOnce(file, arriving[i]);
        P.RunAppend(s0, es, e, stream);
        P.OneMore(es, e, P.FillEvents(View(), arriving[i + 1..]));
        es := es + [e];
        if !again {
          return;
        }
        i := i + 1;
      }
    }

    // One turn of the read loop.
    method FillOnce(file: seq<byte>, read: P.Moved) returns (again: bool, ghost e: P.Event)
      requires Valid() && phase == P.Filling && stream[header..] == file
      modifies this`len, this`fread, this`needRefill, this`phase, buf
      ensures Valid() && P.Enabled(old(View()), e) && P.Step(old(View()), e) == View()
      ensures e == P.Arrived(old(View()), read) && (again <==> phase == P.Filling)
    {
      again := false;
      var dlen := buf.Length - len;
      if dlen > fsize - fread {
        dlen := fsize - fread;
      }
      match read {
        case Error =>
          phase := P.Aborted;
          e := P.ReadFails;
        case Count(n) =>
          again := FillCount(file, if n < dlen then n else dlen);
          e := P.Read(if n < dlen then n else dlen);
      }
    }

    method FillCount(file: seq<byte>, s: nat) returns (again: bool)
      requires Valid() && P.Enabled(View(), P.Read(s)) && stream[header..] == file
      modifies this`len, this`fread, this`needRefill, this`phase, buf
      ensures Valid() && View() == P.Step(old(View()), P.Read(s)) && (again <==> phase == P.Filling)
    {
      P.StepKeepsInv(View(), P.Read(s), header);
      CopyIn(file, s);
      again := CountRead(s);
    }

    // Account for s bytes read, and see whether the buffer must be drained now.
    method CountRead(s: nat) returns (again: bool)
      requires phase == P.Filling
      modifies this`len, this`fread, this`needRefill, this`phase
      ensures View() == P.Step(old(View()), P.Read(s)) && (again <==> phase == P.Filling)
    {
      fread := fread + s;
      len := len + s;
      var drain := false;
      if fread == fsize {
        needRefill := false;
        drain := true;
      }
      if buf.Length == len {
        drain := true;
      }
      if drain {
        phase := P.Draining;
      }
      again := !drain;
    }

    // The bytes that read() puts into the buffer.
    method CopyIn(file: seq<byte>, s: nat)
      requires Valid() && stream[header..] == file && len + s <= buf.Length && fread + s <= fsize
      modifies buf
      ensures buf[..len + s] == stream[base..base + len + s]
    {
      forall i | 0 <= i < s {
        buf[len + i] := file[fread + i];
      }
      assert buf[..len] == stream[base..base + len];
      assert buf[len..len + s] == file[fread..fread + s] == stream[base + len..base + len + s];
      assert buf[..len + s] == buf[..len] + buf[len..len + s];
      assert stream[base..base + len + s] == stream[base..base + len] + stream[base + len..base + len + s];
    }

    // One call of conn_respond on a plain socket; the writes are what write() answers in
    // turn, and they decide what happens.  Every write is handed the start of the buffer.
    method Respond(writes: seq<P.Moved>) returns (ghost es: seq<P.Event>)
      requires Valid() && phase == P.Draining
      modifies this`len, this`sent, this`phase, this`base, this`written, this`delivered
      ensures Valid() && P.Leads(old(View()), es, View(), stream, old(delivered), delivered)
      ensures es == P.DrainEvents(old(View()), writes)
    {
      es := [];
      var i, open := 0, true;
      ghost var s0, d0, all := View(), delivered, P.DrainEvents(View(), writes);
      while open && (len == sent || i < |writes|)
        invariant i <= |writes| && Valid() && (open <==> phase == P.Draining)
        invariant P.Leads(s0, es, View(), stream, d0, delivered)
        invariant all == es + P.DrainEvents(View(), writes[i..])
        decreases |writes| - i, open
      {
        ghost var e, s1, d1, rest := P.Drained, View(), delivered, writes[i..];
        if len == sent {
          open, e := Turn();
        } else {
          open, e := DrainOnce(writes[i]);
          i := i + 1;
          assert rest[1..] == writes[i..];
        }
        P.LeadsFurther(s0, es, s1, e, View(), stream, d0, d1, delivered);
        P.OneMore(es, e, P.DrainEvents(View(), writes[i..]));
        es := es + [e];
      }
    }

    // Everything is sent: go back to filling, or close.
    method Turn() returns (open: bool, ghost e: P.Event)
      requires Valid() && phase == P.Draining && len == sent
      modifies this`len, this`sent, this`phase, this`base
      ensures Valid() && P.Leads(old(View()), [e], View(), stream, old(delivered), delivered)
      ensures !open && phase != P.Draining && e == P.Drained
    {
      open, e := false, P.Drained;
      if needRefill {
        base := base + len;
        len, sent := 0, 0;
        phase := P.Filling;
      } else {
        phase := P.Finished;
      }
    }

    // One write.
    method DrainOnce(write: P.Moved) returns (open: bool, ghost e: P.Event)
      requires Valid() && phase == P.Draining && len != sent
      modifies this`sent, this`phase, this`written, this`delivered
      ensures Valid() && P.Leads(old(View()), [e], View(), stream, old(delivered), delivered)
      ensures e == P.Answered(old(View()), write) && (open <==> phase == P.Draining)
    {
      var w := match write case Error => 0 case Count(n) => if n < len - sent then n else len - sent;
      open := w >= 1;
      if open {
        CountWritten(w);
        e := P.Write(w);
      } else {
        P.LeadsByOne(View(), P.WriteFails, stream, delivered);
        phase := P.Aborted;
        e := P.WriteFails;
      }
    }

    // write() took the first w bytes of the buffer.
    method CountWritten(w: nat)
      requires Valid() && P.Enabled(View(), P.Write(w))
      modifies this`sent, this`written, this`delivered
      ensures Valid() && P.Leads(old(View()), [P.Write(w)], View(), stream, old(delivered), delivered)
    {
      P.StepKeepsInv(View(), P.Write(w), header);
      P.LeadsByOne(View(), P.Write(w), stream, delivered);
      assert buf[..w] == buf[..len][..w] == stream[base..base + w];
      delivered := delivered + buf[..w];
      sent := sent + w;
      written := written + w;
    }
  }
}
