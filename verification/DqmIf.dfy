/** The writer and the reader of module interface data, as the objects the compiler uses. */
module DqmIf {
  import opened Common
  import opened DqmBytes
  import opened DqmContainer
  import opened DqmRecords

  /** What a writer or reader complains about. Only the first complaint is kept. */
  datatype Complaint =
    | RecordTooLarge(id: RecId)
    | PayloadTooLarge
    | EmptyTypeName
    | NilPointerSpec
    | ArrayTooLarge
    | File(file: FileError)
    | Stream(stream: StreamError)
    | UnexpectedRecord(got: RecId)
    | NotEmpty(rec: RecId)
    | BadPair(pair: RecId)
    | BadInteger(number: RecId)
    | BadArrayLength
    | UnknownType(name: Bytes)
    | BadAutoFree

  class DqmIfWriter {
    var payload: Bytes
    var error: Option<Complaint>

    /** Records only ever grow the payload in whole aligned frames. */
    ghost predicate Valid()
      reads this
    {
      |payload| % 4 == 0
    }

    constructor ()
      ensures Valid() && payload == [] && error == None
    {
      payload, error := [], None;
    }

    predicate Ok()
      reads this
    {
      error.None?
    }

    /** Keeps the first complaint, like every failing method. */
    method Fail(what: Complaint) returns (ok: bool)
      modifies this`error
      ensures !ok && error == if old(error).Some? then old(error) else Some(what)
    {
      if error.None? {
        error := Some(what);
      }
      ok := false;
    }

    method AddBytes(data: Bytes)
      modifies `payload
      ensures payload == old(payload) + data
    {
      for i := 0 to |data|
        invariant payload == old(payload) + data[..i]
      {
        payload := payload + [data[i]];
      }
    }

    /** Zero bytes up to the next multiple of four. */
    method AddPadding()
      modifies `payload
      ensures payload == old(payload) + Zeros(AlignUp(|old(payload)|) - |old(payload)|)
    {
      ghost var unpadded := payload;
      while |payload| % 4 != 0
        invariant |unpadded| <= |payload| <= AlignUp(|unpadded|)
        invariant payload == unpadded + Zeros(|payload| - |unpadded|)
        decreases AlignUp(|unpadded|) - |payload|
      {
        payload := payload + [0];
      }
    }

    method AddRec(id: RecId, data: Bytes) returns (ok: bool)
      requires Valid()
      modifies this
      ensures Valid() && ok == (old(error).None? && |data| <= 65535)
      ensures ok ==> error == None && payload == old(payload) + Frame(Rec(id, data))
      ensures !ok ==> error.Some? && payload == old(payload)
    {
      if !Ok() {
        return false;
      }
      if |data| > MAX_DATA {
        ok := Fail(RecordTooLarge(id));
        return;
      }
      ghost var start := payload;
      AddBytes(PutU16(id));
      AddBytes(PutU16(|data|));
      AddBytes(data);
      ghost var unpadded := PutU16(id) + PutU16(|data|) + data;
      ConcatAssociative(start, PutU16(id), PutU16(|data|));
      ConcatAssociative(start, PutU16(id) + PutU16(|data|), data);
      AlignShift(|start|, 4 + |data|);
      AddPadding();
      ConcatAssociative(start, unpadded, Zeros(AlignUp(4 + |data|) - (4 + |data|)));
      return true;
    }

    method BuildFileData() returns (ok: bool, data: Bytes)
      modifies this`error
      ensures ok == (old(error).None? && |payload| <= 4294967295)
      ensures ok ==> error == None && data == FileData(payload)
      ensures !ok ==> error.Some? && data == []
    {
      if !Ok() {
        return false, [];
      }
      if |payload| > MAX_PAYLOAD {
        ok := Fail(PayloadTooLarge);
        return false, [];
      }
      var payloadHash := Checksum(payload);
      var fields := MAGIC + PutU16(HEADER_SIZE) + PutU32(VERSION) + PutU32(|payload|) + PutU64(payloadHash);
      var headerSum := Checksum(fields + PutU64(0));
      return true, fields + PutU64(headerSum) + payload;
    }
  }

  class DqmIfReader {
    var payload: Bytes
    var error: Option<Complaint>
    var pos: nat
    var recid: RecId
    var reclen: nat
    var recpos: nat

    /** While nothing has failed, the current record lies inside the payload. */
    ghost predicate Valid()
      reads this
    {
      error.None? ==> InRecord()
    }

    /** The data of the current record can be read. */
    ghost predicate InRecord()
      reads this
    {
      recpos + reclen <= |payload| && reclen <= MAX_DATA
    }

    /** The record that was read last. */
    ghost function Current(): Rec
      requires InRecord()
      reads this
    {
      Rec(recid, payload[recpos..recpos + reclen])
    }

    /** The records that can still be read. */
    ghost function Rest(): seq<Rec>
      reads this
    {
      Remaining(payload, pos)
    }

    constructor ()
      ensures Valid() && payload == [] && error == None
    {
      payload, error, pos, recid, reclen, recpos := [], None, 0, 0, 0, 0;
    }

    method Fail(what: Complaint) returns (ok: bool)
      modifies this`error
      ensures Valid() && !ok && error == if old(error).Some? then old(error) else Some(what)
    {
      if error.None? {
        error := Some(what);
      }
      ok := false;
    }

    /** Checks the container and keeps its payload. An error of an earlier call is not
        cleared. */
    method ReadFromData(data: Bytes) returns (ok: bool)
      requires Valid()
      modifies this
      ensures ok == ReadFile(data).Ok?
      ensures ok ==> payload == ReadFile(data).value && pos == 0 && error == old(error)
      ensures !ok ==> error == if old(error).Some? then old(error) else Some(File(ReadFile(data).error))
      ensures Valid()
    {
      if |data| < HEADER_SIZE {
        ok := Fail(File(TooSmall));
        return;
      }
      if data[..6] != MAGIC {
        ok := Fail(File(BadMagic));
        return;
      }
      var headerSize := U16At(data, 6);
      if headerSize != HEADER_SIZE {
        ok := Fail(File(BadHeaderSize));
        return;
      }
      var version := U32At(data, 8);
      if version < MIN_VERSION || version > VERSION {
        ok := Fail(File(BadVersion));
        return;
      }
      if headerSize + U32At(data, 12) != |data| {
        ok := Fail(File(SizeMismatch));
        return;
      }
      var headerSum := Checksum(ZeroedHeader(data));
      if headerSum != U64At(data, 24) {
        ok := Fail(File(BadHeaderSum));
        return;
      }
      payload := data[HEADER_SIZE..];
      var payloadSum := Checksum(payload);
      if payloadSum != U64At(data, 16) {
        ok := Fail(File(BadPayloadSum));
        return;
      }
      pos, recid, reclen, recpos := 0, 0, 0, 0;
      return true;
    }

    static method Aligned(n: nat) returns (a: nat)
      ensures a == AlignUp(n)
    {
      a := n;
      while a % 4 != 0
        invariant n <= a <= AlignUp(n)
        decreases AlignUp(n) - a
      {
        a := a + 1;
      }
    }

    method NextRec() returns (ok: bool)
      requires Valid()
      modifies this
      ensures Valid() && payload == old(payload)
      ensures ok == (old(error).None? && ReadAt(payload, old(pos)).Ok?)
      ensures ok ==> error == None && (Current(), pos) == ReadAt(payload, old(pos)).value
      ensures ok ==> old(pos) < pos && old(Rest()) == [Current()] + Rest()
      ensures !ok ==> pos == old(pos)
      ensures !ok ==>
        error == if old(error).Some? then old(error) else Some(Stream(ReadAt(payload, old(pos)).error))
    {
      if error.Some? {
        return false;
      }
      if pos >= |payload| {
        ok := Fail(Stream(EndOfStream));
        return;
      }
      if pos + 4 > |payload| {
        ok := Fail(Stream(TruncatedHeader));
        return;
      }
      var len := U16At(payload, pos + 2);
      var nextpos := pos + 4 + len;
      if nextpos > |payload| {
        ok := Fail(Stream(TruncatedData));
        recid, reclen, recpos := U16At(payload, pos), len, pos + 4;
        return;
      }
      recid, reclen, recpos := U16At(payload, pos), len, pos + 4;
      nextpos := Aligned(nextpos);
      if nextpos > |payload| {
        ok := Fail(Stream(TruncatedPadding));
        return;
      }
      pos := nextpos;
      return true;
    }

    method ExpectEmpty(id: RecId) returns (ok: bool)
      requires Valid()
      modifies this`error
      ensures Valid() && ok == (recid == id && reclen == 0)
      ensures KeepsFirst(old(error), error, ok)
    {
      if recid != id {
        ok := Fail(UnexpectedRecord(recid));
        return;
      }
      if reclen != 0 {
        ok := Fail(NotEmpty(recid));
        return;
      }
      return true;
    }

    method ReadStringPair() returns (ok: bool, first: Bytes, second: Bytes)
      requires InRecord()
      modifies this`error
      ensures Valid() && ok == ReadPair(old(Current()).data).Some?
      ensures KeepsFirst(old(error), error, ok)
      ensures ok ==> (first, second) == ReadPair(old(Current()).data).value
    {
      first, second := [], [];
      var k := recpos;
      ghost var data := Current().data;
      while k < recpos + reclen && payload[k] != 0
        invariant recpos <= k <= recpos + reclen
        invariant IndexOfZero(data, 0) == IndexOfZero(data, k - recpos)
      {
        k := k + 1;
      }
      if k == recpos + reclen {
        ok := Fail(BadPair(recid));
        return;
      }
      first, second := payload[recpos..k], payload[k + 1..recpos + reclen];
      assert first == data[..k - recpos] && second == data[k - recpos + 1..];
      if first == [] || second == [] {
        ok := Fail(BadPair(recid));
        return;
      }
      return true, first, second;
    }

    method ReadU32() returns (ok: bool, value: U32)
      requires InRecord()
      modifies this`error
      ensures Valid() && ok == (|old(Current()).data| == 4)
      ensures KeepsFirst(old(error), error, ok)
      ensures ok ==> value == U32At(old(Current()).data, 0)
    {
      if reclen != 4 {
        ok := Fail(BadInteger(recid));
        return false, 0;
      }
      value := U32At(payload, recpos);
      return true, value;
    }

    /** One record of a group that is being skipped; `after` groups are open behind it. */
    method SkipOne(depth: nat, begin: RecId, end: RecId, ghost all: seq<Rec>, ghost read: nat)
      returns (ok: bool, after: nat)
      requires Valid() && error.None? && depth > 0
      requires IsSkipping(all, read, depth, Rest(), begin, end)
      modifies this
      ensures Valid() && payload == old(payload) && (error.None? <==> ok)
      ensures !ok ==> SkipCount(all, 1, begin, end).None?
      ensures ok ==> pos > old(pos) && read < |all| && Current() == all[read]
      ensures ok ==> IsSkipping(all, read + 1, after, Rest(), begin, end)
    {
      ok := NextRec();
      after := depth;
      if ok {
        if recid == begin {
          after := depth + 1;
        } else if recid == end {
          after := depth - 1;
        }
        NextOf(all, read, Current(), Rest());
      }
    }

    /** The loop of SkipGroup, behind the begin record. */
    method SkipBody(begin: RecId, end: RecId) returns (ok: bool)
      requires Valid() && error.None?
      modifies this
      ensures Valid() && payload == old(payload) && (error.None? <==> ok)
      ensures ok == SkipCount(old(Rest()), 1, begin, end).Some?
      ensures ok ==>
        var n := SkipCount(old(Rest()), 1, begin, end).value;
        n > 0 && Current() == old(Rest())[n - 1] && Rest() == old(Rest())[n..]
    {
      var depth: nat := 1;
      ghost var all := Rest();
      ghost var read: nat := 0;
      while depth > 0
        invariant Valid() && payload == old(payload) && error.None?
        invariant IsSkipping(all, read, depth, Rest(), begin, end)
        invariant depth == 0 ==> read > 0
        invariant read > 0 ==> Current() == all[read - 1]
        decreases |payload| - pos
      {
        ok, depth := SkipOne(depth, begin, end, all, read);
        if !ok {
          return false;
        }
        read := read + 1;
      }
      return true;
    }

    /** Skips to the end record that closes the current group. With an earlier error the first
        advance would fail. */
    method SkipGroup(begin: RecId, end: RecId) returns (ok: bool)
      requires Valid()
      modifies this
      ensures Valid() && payload == old(payload)
      ensures ok == (old(error).None? && old(recid) == begin && SkipCount(old(Rest()), 1, begin, end).Some?)
      ensures ok <==> error.None?
      ensures ok ==>
        var n := SkipCount(old(Rest()), 1, begin, end).value;
        n > 0 && Current() == old(Rest())[n - 1] && Rest() == old(Rest())[n..]
    {
      if recid != begin {
        ok := Fail(UnexpectedRecord(recid));
        return;
      }
      if error.Some? {
        return false;
      }
      ok := SkipBody(begin, end);
    }
  }

  /** `read` records have been taken off `all`, and `depth` groups are open before the rest. */
  ghost predicate IsSkipping(all: seq<Rec>, read: nat, depth: nat, rest: seq<Rec>, begin: RecId, end: RecId) {
    && read <= |all| && rest == all[read..]
    && SkipCount(all, 1, begin, end) == Later(SkipCount(rest, depth, begin, end), read)
  }

  lemma NextOf(all: seq<Rec>, read: nat, r: Rec, rest: seq<Rec>)
    requires read <= |all| && all[read..] == [r] + rest
    ensures read < |all| && all[read] == r && all[read + 1..] == rest
  {
    assert all[read..][0] == r && all[read..][1..] == rest;
  }

  /** A check sets the error exactly when it fails, and never replaces an earlier one. */
  predicate KeepsFirst(before: Option<Complaint>, after: Option<Complaint>, ok: bool) {
    if ok || before.Some? then after == before else after.Some?
  }

  function Later(n: Option<nat>, more: nat): Option<nat> {
    match n
    case Some(k) => Some(k + more)
    case None => None
  }

  // ----- whole files

  /** A file written from records gives them all back, in order, and then ends. */
  lemma FileRoundTrip(rs: seq<Rec>)
    requires forall i :: 0 <= i < |rs| ==> Fits(rs[i])
    requires |FrameAll(rs)| <= MAX_PAYLOAD
    ensures ReadFile(FileData(FrameAll(rs))) == Ok(FrameAll(rs))
    ensures Remaining(FrameAll(rs), 0) == rs
  {
    ReadInvertsWrite(FileData(FrameAll(rs)), FrameAll(rs));
    assert FrameAll(rs)[0..] == FrameAll(rs);
    RemainingFramed(FrameAll(rs), 0, rs);
  }
}
