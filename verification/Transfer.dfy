/**
  Operations that are cut into server-sized pieces: ll_write and ll_read (lib/lowlevel.c) with their
  callers, and the read loop of the FUSE daemon (daemon/fuse_int.c).
 */
module Transfer {
  import opened Bytes
  import opened Codes

  predicate IsReadError(rc: int) {
    rc in {kFPAccessDenied, kFPLockErr, kFPMiscErr, kFPParamErr}
  }

  // ---------------------------------------------------------------- a file's content

  /** The content after data is written at offset; a gap is filled with zeros. */
  function Splice(c: seq<byte>, offset: nat, data: seq<byte>): seq<byte> {
    if data == [] then c
    else
      (if |c| < offset then c + Zeros(offset - |c|) else c[..offset]) + data +
      (if offset + |data| < |c| then c[offset + |data|..] else [])
  }

  /** What there is to read in [offset, offset + size). */
  function Range(c: seq<byte>, offset: nat, size: nat): seq<byte> {
    if |c| <= offset then [] else if |c| < offset + size then c[offset..] else c[offset..offset + size]
  }

  /** Byte by byte: the data where it was written, the old content elsewhere, zeros in a gap. */
  lemma SpliceAt(c: seq<byte>, offset: nat, data: seq<byte>, k: nat)
    requires data != []
    ensures var s := Splice(c, offset, data);
            && |s| == (if offset + |data| < |c| then |c| else offset + |data|)
            && (k < |s| ==> s[k] == if offset <= k < offset + |data| then data[k - offset]
                                    else if k < |c| then c[k] else 0)
  {
  }

  lemma RangeAt(c: seq<byte>, offset: nat, size: nat, k: nat)
    ensures var r := Range(c, offset, size);
            && |r| == (if |c| <= offset then 0 else if |c| < offset + size then |c| - offset else size)
            && (k < |r| ==> r[k] == c[offset + k])
  {
  }

  lemma SpliceTwice(c: seq<byte>, offset: nat, a: seq<byte>, b: seq<byte>)
    ensures Splice(Splice(c, offset, a), offset + |a|, b) == Splice(c, offset, a + b)
  {
    if a == [] {
      assert a + b == b;
    } else if b == [] {
      assert a + b == a;
    } else {
      var s := Splice(c, offset, a);
      var front := if |c| < offset then c + Zeros(offset - |c|) else c[..offset];
      assert s[..offset + |a|] == front + a;
      assert offset + |a + b| < |c| ==> s[offset + |a + b|..] == c[offset + |a + b|..];
    }
  }

  /** What was written is read back. */
  lemma ReadBack(c: seq<byte>, offset: nat, data: seq<byte>)
    ensures data != [] ==> Range(Splice(c, offset, data), offset, |data|) == data
  {
  }

  // ---------------------------------------------------------------- writing

  /** One afp_write or afp_writeext, and whether the server carried it out. */
  datatype WriteRequest = WriteRequest(offset: nat, data: seq<byte>, accepted: bool)

  function ApplyAll(c: seq<byte>, rs: seq<WriteRequest>): seq<byte> {
    if rs == [] then c
    else
      var prior, r := ApplyAll(c, rs[..|rs| - 1]), rs[|rs| - 1];
      if r.accepted then Splice(prior, r.offset, r.data) else prior
  }

  /** The requests cover data in order, without gap or overlap, in full packets but for the last. */
  ghost predicate Tiles(rs: seq<WriteRequest>, offset: nat, data: seq<byte>, quantum: nat) {
    if rs == [] then data == []
    else
      var r := rs[|rs| - 1];
      && 0 < |r.data| <= quantum && |r.data| <= |data|
      && r.offset == offset + |data| - |r.data|
      && r.data == data[|data| - |r.data|..]
      && Tiles(rs[..|rs| - 1], offset, data[..|data| - |r.data|], quantum)
      && (|rs| > 1 ==> |rs[|rs| - 2].data| == quantum)
  }

  predicate AllAccepted(rs: seq<WriteRequest>) {
    forall k :: 0 <= k < |rs| ==> rs[k].accepted
  }

  lemma {:induction false} AcceptedTilesSplice(
    c: seq<byte>, rs: seq<WriteRequest>, offset: nat, data: seq<byte>, quantum: nat)
    requires Tiles(rs, offset, data, quantum) && AllAccepted(rs)
    ensures ApplyAll(c, rs) == Splice(c, offset, data)
    decreases |rs|
  {
    if rs == [] {
    } else {
      hide Splice, Zeros;
      var init, r := rs[..|rs| - 1], rs[|rs| - 1];
      var front := data[..|data| - |r.data|];
      assert AllAccepted(init);
      AcceptedTilesSplice(c, init, offset, front, quantum);
      SpliceTwice(c, offset, front, r.data);
      assert front + r.data == data;
    }
  }

  /** A content that differs from data everywhere in the range that data goes to. */
  function Unlike(offset: nat, data: seq<byte>): seq<byte> {
    Zeros(offset) + seq(|data|, k requires 0 <= k < |data| => 255 - data[k])
  }

  lemma {:induction false} RefusedTileStays(
    rs: seq<WriteRequest>, offset: nat, data: seq<byte>, quantum: nat, k: nat, whole: seq<byte>)
    requires Tiles(rs, offset, data, quantum) && k < |rs| && !rs[k].accepted && data <= whole
    ensures offset <= rs[k].offset < offset + |data|
    ensures var f := ApplyAll(Unlike(offset, whole), rs);
            |f| == offset + |whole| && f[rs[k].offset] == Unlike(offset, whole)[rs[k].offset]
    decreases |rs|
  {
    var init, r := rs[..|rs| - 1], rs[|rs| - 1];
    var front := data[..|data| - |r.data|];
    if k == |rs| - 1 {
      OutsideUntouched(init, offset, front, quantum, whole, r.offset);
    } else {
      assert init[k] == rs[k];
      RefusedTileStays(init, offset, front, quantum, k, whole);
    }
  }

  lemma {:induction false} OutsideUntouched(
    rs: seq<WriteRequest>, offset: nat, data: seq<byte>, quantum: nat, whole: seq<byte>, p: nat)
    requires Tiles(rs, offset, data, quantum) && data <= whole && offset + |data| <= p < offset + |whole|
    ensures var f := ApplyAll(Unlike(offset, whole), rs);
            |f| == offset + |whole| && f[p] == Unlike(offset, whole)[p]
    decreases |rs|
  {
    if rs != [] {
      OutsideUntouched(rs[..|rs| - 1], offset, data[..|data| - |rs[|rs| - 1].data|], quantum, whole, p);
    }
  }

  /**
    ll_write drops the server's answer to each request. The file it leaves is the old one with the data
    spliced in, whatever the old one was, if and only if the server carried out every request.
   */
  lemma WriteIsSpliceIff(rs: seq<WriteRequest>, offset: nat, data: seq<byte>, quantum: nat)
    requires Tiles(rs, offset, data, quantum)
    ensures AllAccepted(rs) <==> forall c :: ApplyAll(c, rs) == Splice(c, offset, data)
  {
    hide Tiles, ApplyAll, Splice, Unlike;
    if AllAccepted(rs) {
      forall c { AcceptedTilesSplice(c, rs, offset, data, quantum); }
    } else {
      var k :| 0 <= k < |rs| && !rs[k].accepted;
      RefusedTileStays(rs, offset, data, quantum, k, data);
      SplicedDiffers(offset, data, rs[k].offset);
    }
  }

  lemma SplicedDiffers(offset: nat, data: seq<byte>, p: nat)
    requires offset <= p < offset + |data|
    ensures |Unlike(offset, data)| == offset + |data| == |Splice(Unlike(offset, data), offset, data)|
    ensures Splice(Unlike(offset, data), offset, data)[p] != Unlike(offset, data)[p]
  {
    var u := Unlike(offset, data);
    assert u[p] == 255 - data[p - offset];
    assert Splice(u, offset, data)[p] == data[p - offset];
  }

  lemma TilesExtend(rs: seq<WriteRequest>, offset: nat, data: seq<byte>, quantum: nat, o: nat, r: WriteRequest)
    requires o < |data| && Tiles(rs, offset, data[..o], quantum) && (rs != [] ==> |rs[|rs| - 1].data| == quantum)
    requires 0 < |r.data| <= quantum && o + |r.data| <= |data|
    requires r.offset == offset + o && r.data == data[o..o + |r.data|]
    ensures Tiles(rs + [r], offset, data[..o + |r.data|], quantum)
  {
    var rs', d := rs + [r], data[..o + |r.data|];
    assert rs'[..|rs|] == rs && d[..o] == data[..o] && d[o..] == r.data;
  }

  lemma NoTiles(c: seq<byte>, offset: nat, quantum: nat)
    ensures Tiles([], offset, [], quantum) && ApplyAll(c, []) == c
  {
  }

  lemma ApplyOneMore(c: seq<byte>, rs: seq<WriteRequest>, r: WriteRequest)
    ensures ApplyAll(c, rs + [r]) ==
            if r.accepted then Splice(ApplyAll(c, rs), r.offset, r.data) else ApplyAll(c, rs)
  {
    assert (rs + [r])[..|rs|] == rs;
  }

  /** What a server may be bound to refuse: the lock, the unlocking, or the reading with that code. */
  datatype Refusal = Nothing | Locking | Unlocking | Reading(rc: int)

  /** An open fork on the server, which may promise to grant every lock and to answer without errors, or, if
      not, to refuse the same thing every time. */
  class RemoteFile {
    var content: seq<byte>
    const grantsLocks: bool
    const errorFree: bool
    const refusal: Refusal

    constructor (c: seq<byte>, grantsLocks: bool, errorFree: bool, refusal: Refusal)
      ensures content == c && this.grantsLocks == grantsLocks && this.errorFree == errorFree
      ensures this.refusal == refusal
    {
      content, this.grantsLocks, this.errorFree, this.refusal := c, grantsLocks, errorFree, refusal;
    }

    /** ll_handle_locking: fine, or the server would not do it. */
    method TryLock() returns (failed: bool)
      ensures grantsLocks || refusal.Unlocking? || refusal.Reading? ==> !failed
      ensures !grantsLocks && refusal.Locking? ==> failed
    {
      failed := *;
      if refusal != Nothing { failed := refusal.Locking?; }
      if grantsLocks { failed := false; }
    }

    /** ll_handle_unlocking. */
    method TryUnlock() returns (failed: bool)
      ensures grantsLocks || refusal.Reading? ==> !failed
      ensures !grantsLocks && refusal.Unlocking? ==> failed
    {
      failed := *;
      if refusal.Unlocking? { failed := true; }
      if grantsLocks || refusal.Reading? { failed := false; }
    }

    /** afp_write, afp_writeext: the server may refuse. */
    method Write(offset: nat, data: seq<byte>) returns (rc: int)
      modifies this
      ensures content == if rc == 0 then Splice(old(content), offset, data) else old(content)
      ensures errorFree ==> rc == 0
    {
      rc := *;
      if errorFree { rc := kFPNoErr; }
      if rc == kFPNoErr {
        content := Splice(content, offset, data);
      }
    }

    /** afp_read, afp_readext into a buffer for limit bytes: a nonempty part of what is there, or, with the
        end-of-file code, all that is left; or one of the errors that ll_read reports. */
    method Read(offset: nat, limit: nat) returns (bytes: seq<byte>, rc: int)
      ensures |bytes| <= limit && bytes <= Range(content, offset, limit)
      ensures rc == 0 && limit > 0 ==> bytes != []
      ensures rc == 0 || rc == -5009 || (rc in {-5000, -5013, -5014, -5019} && !errorFree)
      ensures rc == -5009 ==> bytes == Range(content, offset, limit) && |content| <= offset + |bytes|
      ensures !errorFree && refusal.Reading? && IsReadError(refusal.rc) ==> rc == refusal.rc
    {
      var all := Range(content, offset, limit);
      rc := *;
      if !errorFree && refusal.Reading? && IsReadError(refusal.rc) {
        return [], refusal.rc;
      }
      if IsReadError(rc) && !errorFree {
        return [], rc;
      }
      if |all| == 0 && limit > 0 {
        return [], kFPEOFErr;
      }
      if |content| <= offset + |all| && rc == kFPEOFErr {
        return all, kFPEOFErr;
      }
      if |all| == 0 {
        return [], kFPNoErr;
      }
      var n :| 1 <= n <= |all|;
      return all[..n], kFPNoErr;
    }
  }

  /** ll_write. It returns 0 on every path, because the failure paths negate a code that was never set;
      the caller learns of a lock that was not granted only from totalWritten. */
  method LlWrite(f: RemoteFile, txQuantum: nat, data: seq<byte>, offset: nat)
      returns (ret: int, totalWritten: nat, ghost requests: seq<WriteRequest>)
    requires txQuantum > 0
    modifies f
    ensures ret == 0
    ensures (totalWritten == |data| && Tiles(requests, offset, data, txQuantum))
            || (totalWritten == 0 && requests == [])
    ensures f.grantsLocks ==> totalWritten == |data| && Tiles(requests, offset, data, txQuantum)
    ensures f.errorFree ==> AllAccepted(requests)
    ensures f.content == ApplyAll(old(f.content), requests)
    ensures totalWritten == |data| && AllAccepted(requests) && Tiles(requests, offset, data, txQuantum) ==>
              f.content == Splice(old(f.content), offset, data)
  {
    hide Splice, Tiles, ApplyAll;
    NoTiles(f.content, offset, txQuantum);
    requests := [];
    ret, totalWritten := 0, 0;
    var o := 0;
    var failed := f.TryLock();
    if failed {
      if data == [] { AcceptedTilesSplice(f.content, [], offset, data, txQuantum); }
      return;
    }
    assert data[..0] == [];
    while totalWritten < |data|
      invariant totalWritten == o <= |data|
      invariant Tiles(requests, offset, data[..o], txQuantum)
      invariant o < |data| && requests != [] ==> |requests[|requests| - 1].data| == txQuantum
      invariant f.content == ApplyAll(old(f.content), requests) && (f.errorFree ==> AllAccepted(requests))
    {
      var sizeToWrite := txQuantum;
      if |data| - totalWritten < txQuantum {
        sizeToWrite := |data| - totalWritten;
      }
      var piece := data[o..o + sizeToWrite];
      var rc := f.Write(offset + o, piece);
      ghost var r := WriteRequest(offset + o, piece, rc == kFPNoErr);
      TilesExtend(requests, offset, data, txQuantum, o, r);
      ApplyOneMore(old(f.content), requests, r);
      requests := requests + [r];
      totalWritten := totalWritten + sizeToWrite;
      o := o + sizeToWrite;
    }
    assert data[..o] == data;
    if AllAccepted(requests) { AcceptedTilesSplice(old(f.content), requests, offset, data, txQuantum); }
    var _ := f.TryUnlock();
  }

  // ---------------------------------------------------------------- reading

  /** ll_read: one request for at most rx_quantum bytes. */
  method LlRead(f: RemoteFile, rxQuantum: nat, buf: array<byte>, start: nat, size: nat, offset: nat)
      returns (ret: int, eof: bool)
    requires start + size <= buf.Length && rxQuantum > 0
    modifies buf
    ensures forall k :: 0 <= k < buf.Length && !(start <= k < start + size) ==> buf[k] == old(buf[k])
    ensures ret <= size && ret <= rxQuantum
    ensures ret >= 0 ==> buf[start..start + ret] <= Range(f.content, offset, size)
    ensures ret >= 0 && eof ==> |f.content| <= offset + ret
    ensures ret == 0 && !eof ==> size == 0
    ensures f.grantsLocks && f.errorFree ==> ret >= 0
    ensures !f.grantsLocks && f.refusal.Locking? ==> ret == -16
    ensures !f.grantsLocks && f.refusal.Unlocking? ==> ret == -5
    ensures !f.errorFree && f.refusal == Reading(-5000) ==> ret == -13
    ensures !f.errorFree && f.refusal == Reading(-5013) ==> ret == -16
    ensures !f.errorFree && f.refusal in {Reading(-5014), Reading(-5019)} ==> ret == -5
  {
    hide Range;
    eof := false;
    var bufsize := if rxQuantum < size then rxQuantum else size;
    RangePrefix(f.content, offset, bufsize, size);
    var failed := f.TryLock();
    if failed {
      return -EBUSY, eof;
    }
    var bytes, rc := f.Read(offset, bufsize);
    for k := 0 to |bytes|
      invariant buf[start..start + k] == bytes[..k]
      invariant forall k :: 0 <= k < buf.Length && !(start <= k < start + size) ==> buf[k] == old(buf[k])
    {
      buf[start + k] := bytes[k];
    }
    failed := f.TryUnlock();
    if failed {
      return -EIO, eof;
    }
    if rc == kFPAccessDenied {
      return -EACCES, eof;
    }
    if rc == kFPLockErr {
      return -EBUSY, eof;
    }
    if rc == kFPMiscErr || rc == kFPParamErr {
      return -EIO, eof;
    }
    eof := rc == kFPEOFErr;
    ret := |bytes|;
    assert buf[start..start + ret] == bytes;
  }

  /** fuse_read: ask again until the request is filled or the file ends. */
  method FuseRead(f: RemoteFile, rxQuantum: nat, buf: array<byte>, size0: nat, offset0: nat) returns (ret: int)
    requires size0 <= buf.Length && rxQuantum > 0
    modifies buf
    ensures f.grantsLocks && f.errorFree ==> ret >= 0
    ensures ret >= 0 ==> ret == |Range(f.content, offset0, size0)| && buf[..ret] == Range(f.content, offset0, size0)
    ensures forall k :: size0 <= k < buf.Length ==> buf[k] == old(buf[k])
  {
    hide Range;
    var amountRead, size, offset := 0, size0, offset0;
    while true
      invariant 0 <= size && amountRead + size == size0 && offset == offset0 + amountRead
      invariant amountRead <= |Range(f.content, offset0, size0)|
      invariant buf[..amountRead] == Range(f.content, offset0, size0)[..amountRead]
      invariant amountRead > 0 ==> size > 0
      invariant forall k :: size0 <= k < buf.Length ==> buf[k] == old(buf[k])
      decreases size
    {
      ghost var got := buf[..amountRead];
      var n, eof := LlRead(f, rxQuantum, buf, amountRead, size, offset);
      if n < 0 {
        return n;
      }
      assert buf[..amountRead] == got;
      assert buf[..amountRead + n] == got + buf[amountRead..amountRead + n];
      RangeGrows(f.content, offset0, size0, amountRead, buf[amountRead..amountRead + n]);
      amountRead := amountRead + n;
      if eof || n == size { RangeComplete(f.content, offset0, size0, amountRead); }
      if eof { return amountRead; }
      size := size - n;
      if size == 0 { return amountRead; }
      offset := offset + n;
    }
  }

  lemma RangePrefix(c: seq<byte>, offset: nat, less: nat, more: nat)
    requires less <= more
    ensures Range(c, offset, less) <= Range(c, offset, more)
  {
  }

  lemma RangeGrows(c: seq<byte>, offset: nat, size: nat, done: nat, more: seq<byte>)
    requires done <= size && done <= |Range(c, offset, size)| && more <= Range(c, offset + done, size - done)
    ensures done + |more| <= |Range(c, offset, size)|
    ensures Range(c, offset, size)[..done + |more|] == Range(c, offset, size)[..done] + more
  {
    var r := Range(c, offset, size);
    assert Range(c, offset + done, size - done) == r[done..];
  }

  lemma RangeComplete(c: seq<byte>, offset: nat, size: nat, done: nat)
    requires done <= |Range(c, offset, size)| && (|c| <= offset + done || done == size)
    ensures done == |Range(c, offset, size)|
    ensures Range(c, offset, size)[..done] == Range(c, offset, size)
  {
  }

  /** Written, accepted, and read back through the daemon: the same bytes. */
  method WriteThenRead(f: RemoteFile, txQuantum: nat, rxQuantum: nat, data: seq<byte>, offset: nat, buf: array<byte>)
      returns (ret: int, ghost requests: seq<WriteRequest>)
    requires txQuantum > 0 && rxQuantum > 0 && |data| <= buf.Length
    modifies f, buf
    ensures f.grantsLocks && f.errorFree && data != [] ==> ret == |data| && buf[..ret] == data
    ensures ret >= 0 && data != [] && requests != [] && AllAccepted(requests) ==> ret == |data| && buf[..ret] == data
  {
    var _, written, rs := LlWrite(f, txQuantum, data, offset);
    requests := rs;
    ret := FuseRead(f, rxQuantum, buf, |data|, offset);
    ReadBack(old(f.content), offset, data);
  }
}
