/** The record stream inside a module interface: id, length, data, zero padding to a
    multiple of four. */
module DqmRecords {
  import opened Common
  import opened DqmBytes

  const MAX_DATA: nat := 0xFFFF

  datatype Rec = Rec(id: U16, data: Bytes)

  type RecId = U16

  predicate Fits(r: Rec) {
    |r.data| <= MAX_DATA
  }

  function AlignUp(n: nat): (a: nat)
    ensures n <= a < n + 4 && a % 4 == 0
  {
    n + (4 - n % 4) % 4
  }

  function Zeros(n: nat): Bytes {
    seq(n, _ => 0)
  }

  /** The bytes of one record that starts at an aligned position. */
  function Frame(r: Rec): (f: Bytes)
    requires Fits(r)
    ensures |f| == AlignUp(4 + |r.data|) && |f| % 4 == 0
  {
    PutU16(r.id) + PutU16(|r.data|) + r.data + Zeros(AlignUp(4 + |r.data|) - (4 + |r.data|))
  }

  function FrameAll(rs: seq<Rec>): (f: Bytes)
    requires forall i :: 0 <= i < |rs| ==> Fits(rs[i])
    ensures |f| % 4 == 0
  {
    if rs == [] then [] else Frame(rs[0]) + FrameAll(rs[1..])
  }

  datatype StreamError = EndOfStream | TruncatedHeader | TruncatedData | TruncatedPadding

  /** The record at `pos`, and where the next one starts. */
  function ReadAt(payload: Bytes, pos: nat): (r: Result<(Rec, nat), StreamError>)
    ensures r.Ok? ==> pos + 4 <= r.value.1 <= |payload| && Fits(r.value.0)
  {
    if pos >= |payload| then Err(EndOfStream)
    else if pos + 4 > |payload| then Err(TruncatedHeader)
    else
      var len := U16At(payload, pos + 2);
      if pos + 4 + len > |payload| then Err(TruncatedData)
      else if AlignUp(pos + 4 + len) > |payload| then Err(TruncatedPadding)
      else Ok((Rec(U16At(payload, pos), payload[pos + 4..pos + 4 + len]), AlignUp(pos + 4 + len)))
  }

  /** All records that can be read from `pos` on. */
  function Remaining(payload: Bytes, pos: nat): seq<Rec>
    decreases |payload| - pos
  {
    match ReadAt(payload, pos)
    case Err(_) => []
    case Ok((r, next)) => [r] + Remaining(payload, next)
  }

  lemma FrameParts(r: Rec)
    requires Fits(r)
    ensures var f := Frame(r); f[0..2] == PutU16(r.id) && f[2..4] == PutU16(|r.data|) && f[4..4 + |r.data|] == r.data
  {
  }

  lemma SliceOfSlice(payload: Bytes, pos: nat, f: Bytes, i: nat, j: nat)
    requires pos + |f| <= |payload| && payload[pos..pos + |f|] == f && i <= j <= |f|
    ensures payload[pos + i..pos + j] == f[i..j]
  {
    forall k | 0 <= k < j - i ensures payload[pos + i..pos + j][k] == f[i..j][k] {
      assert f[i + k] == payload[pos..pos + |f|][i + k];
    }
  }

  /** The bytes of a frame are read as the record they were written for. */
  lemma ReadFramed(payload: Bytes, pos: nat, r: Rec)
    requires pos % 4 == 0 && Fits(r) && pos + |Frame(r)| <= |payload| && payload[pos..pos + |Frame(r)|] == Frame(r)
    ensures ReadAt(payload, pos) == Ok((r, pos + |Frame(r)|))
  {
    FrameParts(r);
    SliceOfSlice(payload, pos, Frame(r), 0, 2);
    SliceOfSlice(payload, pos, Frame(r), 2, 4);
    SliceOfSlice(payload, pos, Frame(r), 4, 4 + |r.data|);
    U16Codec(payload, pos, r.id);
    U16Codec(payload, pos + 2, |r.data|);
    AlignShift(pos, 4 + |r.data|);
  }

  lemma AlignShift(a: nat, n: nat)
    requires a % 4 == 0
    ensures AlignUp(a + n) == a + AlignUp(n)
  {
  }

  lemma {:induction false} FrameAllConcat(a: seq<Rec>, b: seq<Rec>)
    requires forall i :: 0 <= i < |a| ==> Fits(a[i])
    requires forall i :: 0 <= i < |b| ==> Fits(b[i])
    ensures forall i :: 0 <= i < |a + b| ==> Fits((a + b)[i])
    ensures FrameAll(a + b) == FrameAll(a) + FrameAll(b)
    decreases |a|
  {
    if a == [] {
      assert a + b == b && [] + FrameAll(b) == FrameAll(b);
    } else {
      FrameAllConcat(a[1..], b);
      assert (a + b)[0] == a[0] && (a + b)[1..] == a[1..] + b;
      ConcatAssociative(Frame(a[0]), FrameAll(a[1..]), FrameAll(b));
    }
  }

  lemma FrameOne(r: Rec)
    requires Fits(r)
    ensures FrameAll([r]) == Frame(r)
  {
    assert Frame(r) + [] == Frame(r);
  }

  lemma RemainingStep(payload: Bytes, pos: nat, r: Rec, next: nat)
    requires ReadAt(payload, pos) == Ok((r, next))
    ensures Remaining(payload, pos) == [r] + Remaining(payload, next)
  {
  }

  lemma TailParts(payload: Bytes, pos: nat, front: Bytes, back: Bytes)
    requires pos <= |payload| && payload[pos..] == front + back
    ensures pos + |front| <= |payload|
    ensures payload[pos..pos + |front|] == front && payload[pos + |front|..] == back
  {
    assert payload[pos..pos + |front|] == payload[pos..][..|front|];
    assert payload[pos + |front|..] == payload[pos..][|front|..];
  }

  /** Whatever was framed is read back, record by record and in order, up to the end. */
  lemma {:induction false} RemainingFramed(payload: Bytes, pos: nat, rs: seq<Rec>)
    requires pos % 4 == 0 && pos <= |payload|
    requires forall i :: 0 <= i < |rs| ==> Fits(rs[i])
    requires payload[pos..] == FrameAll(rs)
    ensures Remaining(payload, pos) == rs
    ensures rs == [] ==> ReadAt(payload, pos) == Err(EndOfStream)
    decreases |rs|
  {
    if rs != [] {
      var next := pos + |Frame(rs[0])|;
      TailParts(payload, pos, Frame(rs[0]), FrameAll(rs[1..]));
      ReadFramed(payload, pos, rs[0]);
      RemainingStep(payload, pos, rs[0], next);
      RemainingFramed(payload, next, rs[1..]);
    }
  }

  // ----- groups

  /** How many records a group skip consumes, when `depth` groups are open. */
  function SkipCount(rs: seq<Rec>, depth: nat, begin: RecId, end: RecId): (n: Option<nat>)
    ensures n.Some? ==> n.value <= |rs|
    decreases |rs|
  {
    if depth == 0 then Some(0)
    else if rs == [] then None
    else
      var d := if rs[0].id == begin then depth + 1 else if rs[0].id == end then depth - 1 else depth;
      match SkipCount(rs[1..], d, begin, end)
      case Some(n) => Some(n + 1)
      case None => None
  }

  /** The begin and end records in `rs` pair up, given `open` groups still open before it. */
  predicate Balanced(rs: seq<Rec>, open: nat, begin: RecId, end: RecId)
    decreases |rs|
  {
    if rs == [] then open == 0
    else if rs[0].id == begin then Balanced(rs[1..], open + 1, begin, end)
    else if rs[0].id == end then open > 0 && Balanced(rs[1..], open - 1, begin, end)
    else Balanced(rs[1..], open, begin, end)
  }

  /** Skipping a balanced group consumes its body and its own end record, and nothing more. */
  lemma {:induction false} SkipStopsAtMatchingEnd(body: seq<Rec>, last: Rec, tail: seq<Rec>, open: nat,
                                                  begin: RecId, end: RecId)
    requires begin != end && last.id == end && Balanced(body, open, begin, end)
    ensures SkipCount(body + [last] + tail, open + 1, begin, end) == Some(|body| + 1)
    decreases |body|
  {
    var rs := body + [last] + tail;
    if body == [] {
      assert rs[1..] == tail;
    } else {
      assert rs[1..] == body[1..] + [last] + tail;
      var d := if rs[0].id == begin then open + 1 else if rs[0].id == end then open - 1 else open;
      SkipStopsAtMatchingEnd(body[1..], last, tail, d, begin, end);
    }
  }

  // ----- string pairs

  /** Two strings in one record, separated by a zero byte. */
  function PairData(first: Bytes, second: Bytes): Bytes {
    first + [0] + second
  }

  /** The first zero byte from `i` on. */
  function IndexOfZero(data: Bytes, i: nat): (k: Option<nat>)
    ensures k.Some? ==> i <= k.value < |data| && data[k.value] == 0
    ensures forall j :: i <= j < |data| && (k.Some? ==> j < k.value) ==> data[j] != 0
    decreases |data| - i
  {
    if i >= |data| then None else if data[i] == 0 then Some(i) else IndexOfZero(data, i + 1)
  }

  function ReadPair(data: Bytes): Option<(Bytes, Bytes)> {
    match IndexOfZero(data, 0)
    case None => None
    case Some(k) => if k > 0 && k + 1 < |data| then Some((data[..k], data[k + 1..])) else None
  }

  /** A pair comes back as written exactly when both strings are non-empty and the first
      holds no zero byte. */
  lemma PairRoundTrip(first: Bytes, second: Bytes)
    ensures ReadPair(PairData(first, second)) == Some((first, second)) <==> first != [] && second != [] && 0 !in first
  {
    var data := PairData(first, second);
    assert data[|first|] == 0 && data[..|first|] == first && data[|first| + 1..] == second;
    assert forall j :: 0 <= j < |first| ==> data[j] == first[j];
  }
}
