/** The writer of the log: it cuts records into fragments and hands them to the file. */
module LogWriter {

  import opened Fixed
  import opened File
  import opened LogFormat
  import opened Sequences
  import Crc32c
  import Crc32cSpec

  const RECORD_TYPES: nat := 5

  class Writer {
    const dest: PosixWritableFile
    var blockOffset: nat
    /** The checksums of the record types, computed once. */
    const typeCrc: array<bv32>

    ghost predicate Valid()
      reads this, dest, typeCrc
    {
      && dest.Valid()
      && blockOffset <= BLOCK_SIZE
      && typeCrc.Length == RECORD_TYPES
      && forall i :: 0 <= i < RECORD_TYPES ==> typeCrc[i] == Crc32cSpec.Crc(0, [i as byte])
    }

    /** A writer for a file that holds destLength bytes of log; 0 for a new one. */
    constructor (dest: PosixWritableFile, destLength: nat)
      requires dest.Valid()
      ensures this.dest == dest && Valid() && fresh(typeCrc)
      ensures blockOffset == destLength % 32768
    {
      this.dest := dest;
      blockOffset := destLength % BLOCK_SIZE;
      typeCrc := new bv32[RECORD_TYPES];
      new;
      InitTypeCrc();
    }

    method InitTypeCrc()
      requires typeCrc.Length == RECORD_TYPES
      modifies typeCrc
      ensures forall i :: 0 <= i < RECORD_TYPES ==> typeCrc[i] == Crc32cSpec.Crc(0, [i as byte])
    {
      var i := 0;
      while i < RECORD_TYPES
        invariant 0 <= i <= RECORD_TYPES
        invariant forall j :: 0 <= j < i ==> typeCrc[j] == Crc32cSpec.Crc(0, [j as byte])
      {
        var t := i as byte;
        var crc := Crc32c.Value([t], 0);
        typeCrc[i] := crc;
        i := i + 1;
      }
    }

    /** Header, payload and a flush, as far as they go. */
    method WriteThrough(header: seq<byte>, payload: seq<byte>) returns (s: Status)
      requires dest.Valid()
      modifies dest, dest.buf, dest.fd
      ensures dest.Valid() && dest.pos == 0
      ensures s == OK ==> dest.fd.content == old(dest.Stream()) + (header + payload)
      ensures s != OK ==> old(dest.fd.content) <= dest.fd.content < old(dest.Stream()) + (header + payload)
      ensures |old(dest.fd.outcomes)| == 0 ==> s == OK && dest.fd.outcomes == []
    {
      ghost var stream := dest.Stream();
      s := dest.Append(header);
      Longer(dest.fd.content, stream, header, payload);
      if s == OK {
        Regroup(stream, header, payload);
        s := dest.Append(payload);
        if s == OK {
          s := dest.Flush();
        }
      }
    }

    /**
     One fragment. The buffer is empty afterwards, whatever happened; on an error the file
     has gained a proper prefix of the fragment.
     */
    method EmitPhysicalRecord(t: nat, payload: seq<byte>, address: nat) returns (s: Status)
      requires Valid() && t < RECORD_TYPES
      requires blockOffset + HEADER_SIZE + |payload| <= BLOCK_SIZE
      modifies this, dest, dest.buf, dest.fd
      ensures Valid() && dest.pos == 0
      ensures blockOffset == old(blockOffset) + HEADER_SIZE + |payload|
      ensures s == OK ==> dest.fd.content == old(dest.Stream()) + Physical(t as byte, payload)
      ensures s != OK ==> old(dest.fd.content) <= dest.fd.content < old(dest.Stream()) + Physical(t as byte, payload)
      ensures |old(dest.fd.outcomes)| == 0 ==> s == OK && dest.fd.outcomes == []
    {
      var header := MakeHeader(t, payload, address);
      hide Physical;
      s := WriteThrough(header, payload);
      blockOffset := blockOffset + HEADER_SIZE + |payload|;
    }

    method MakeHeader(t: nat, payload: seq<byte>, address: nat) returns (header: seq<byte>)
      requires Valid() && t < RECORD_TYPES && |payload| < 65536
      ensures |header| == HEADER_SIZE && header + payload == Physical(t as byte, payload)
    {
      var buf := new byte[HEADER_SIZE];
      buf[4] := (|payload| % 256) as byte;
      buf[5] := (|payload| / 256) as byte;
      buf[6] := t as byte;
      var crc := Crc32c.Extend(typeCrc[t], payload, address);
      crc := Crc32c.Mask(crc);
      EncodeFixed32(buf, 0, crc);
      header := buf[..];
      assert header == Fixed32(crc) + (LengthBytes(|payload|) + [t as byte]);
    }

    /** The bytes of the next fragment, a trailer before it included. */
    ghost function Next(begin: bool, left: seq<byte>): seq<byte>
      requires Valid()
      reads this, dest, typeCrc
    {
      var len := FragmentLength(blockOffset, |left|);
      Trailer(blockOffset) + Physical(TypeOf(begin, len == |left|), left[..len])
    }

    /** The file's buffer has room for the trailer, or would be written out in full to make room. */
    predicate TrailerArrives()
      requires blockOffset <= BLOCK_SIZE
      reads this, dest, dest.fd
    {
      dest.pos + |Trailer(blockOffset)| <= BUFFER_SIZE || Delivers(dest.fd.outcomes, BUFFER_SIZE)
    }

    /** The trailer does not arrive, and nothing fails after that. */
    predicate FailsOnlyThere()
      requires blockOffset <= BLOCK_SIZE
      reads this, dest, dest.fd
    {
      !TrailerArrives() && Remaining(dest.fd.outcomes, BUFFER_SIZE) == []
    }

    /** Fills the block when it has no room for a header. The append's status is not looked at. */
    method SkipTrailer() returns (ghost lost: bool)
      requires Valid()
      modifies this, dest, dest.buf, dest.fd
      ensures Valid() && blockOffset == Start(old(blockOffset))
      ensures !lost ==> dest.Stream() == old(dest.Stream()) + Trailer(old(blockOffset)) && old(dest.fd.content) <= dest.fd.content
      ensures lost ==> dest.pos == 0 && dest.fd.content < old(dest.Stream()) + Trailer(old(blockOffset))
      ensures !lost <==> old(TrailerArrives())
      ensures old(FailsOnlyThere()) || |old(dest.fd.outcomes)| == 0 ==> dest.fd.outcomes == []
    {
      lost := false;
      var leftover := BLOCK_SIZE - blockOffset;
      if leftover < HEADER_SIZE {
        if leftover > 0 {
          var s := dest.Append(seq(leftover, _ => 0));
          lost := s != OK;
        }
        blockOffset := 0;
      }
    }

    /** One turn of the loop of AddRecord. */
    method AddFragment(begin: bool, left: seq<byte>, address: nat) returns (s: Status, len: nat, ghost lost: bool)
      requires Valid()
      modifies this, dest, dest.buf, dest.fd
      ensures Valid() && dest.pos == 0
      ensures len == FragmentLength(old(blockOffset), |left|) && blockOffset == Start(old(blockOffset)) + HEADER_SIZE + len
      ensures !lost && s == OK ==> dest.fd.content == old(dest.Stream()) + old(Next(begin, left))
      ensures !lost && s != OK ==> old(dest.fd.content) <= dest.fd.content < old(dest.Stream()) + old(Next(begin, left))
      ensures lost && s == OK ==> |dest.fd.content| < |old(dest.Stream())| + |old(Next(begin, left))|
      ensures !lost <==> old(TrailerArrives())
      ensures old(FailsOnlyThere()) || |old(dest.fd.outcomes)| == 0 ==>
                s == OK && dest.fd.outcomes == []
    {
      hide Physical;
      ghost var stream, trailer := dest.Stream(), Trailer(blockOffset);
      lost := SkipTrailer();
      var avail := BLOCK_SIZE - blockOffset - HEADER_SIZE;
      len := if |left| < avail then |left| else avail;
      var end := |left| == len;
      var t := if begin && end then 1 else if begin then 2 else if end then 4 else 3;
      assert t as byte == TypeOf(begin, end);
      Regroup(stream, trailer, Physical(TypeOf(begin, end), left[..len]));
      s := EmitPhysicalRecord(t, left[..len], address);
    }

    /** One turn of the loop, as seen from the whole record: what is written and what is left make up the goal. */
    method Turn(left: seq<byte>, begin: bool, ptr: nat, ghost goal: seq<byte>, ghost before: bool)
      returns (s: Status, len: nat, ghost lost: bool)
      requires Valid() && Progress(dest.Stream(), Encode(blockOffset, left, begin), goal, before)
      modifies this, dest, dest.buf, dest.fd
      ensures Valid() && dest.pos == 0 && len == FragmentLength(old(blockOffset), |left|)
      ensures s == OK && len < |left| ==>
                && blockOffset == BLOCK_SIZE && EndOffset(old(blockOffset), |left|) == EndOffset(BLOCK_SIZE, |left| - len)
                && Progress(dest.Stream(), Encode(BLOCK_SIZE, left[len..], false), goal, lost)
      ensures s == OK && len == |left| ==>
                (!lost <==> dest.fd.content == goal) && blockOffset == EndOffset(old(blockOffset), |left|)
      ensures s != OK && !lost ==> dest.fd.content < goal
      ensures !lost <==> !before && old(TrailerArrives())
      ensures !lost ==> old(dest.fd.content) <= dest.fd.content
      ensures old(FailsOnlyThere()) || |old(dest.fd.outcomes)| == 0 ==>
                s == OK && dest.fd.outcomes == []
    {
      Unfold(blockOffset, left, begin);
      hide Encode;
      hide EndOffset;
      hide Physical;
      hide Progress;
      ghost var stream, next, rest := dest.Stream(), Next(begin, left), AfterNext(left, begin);
      ghost var missing;
      s, len, missing := AddFragment(begin, left, ptr);
      lost := before || missing;
      Advanced(stream, next, rest, goal, before, dest.fd.content, s == OK, missing);
      assert dest.Stream() == dest.fd.content;
    }

    /**
     Appends one record. Success means that the file now ends with everything appended
     before and the whole record, exactly when the trailer before the record arrives: the
     file's buffer has room for it, as it has after every record this writer wrote, or the
     coming write calls write out a full buffer. If it arrives, failure means a proper prefix
     of that. If it does not, and nothing fails later, the call still succeeds.
     */
    method AddRecord(slice: seq<byte>, address: nat) returns (s: Status)
      requires Valid()
      modifies this, dest, dest.buf, dest.fd
      ensures Valid() && dest.pos == 0
      ensures s == OK ==>
                (old(TrailerArrives()) <==> dest.fd.content == old(dest.Stream()) + Encode(old(blockOffset), slice, true))
      ensures s == OK && old(TrailerArrives()) ==>
                OnDisk(old(blockOffset), slice, dest.fd.content[|old(dest.Stream())|..])
      ensures s == OK ==> blockOffset == EndOffset(old(blockOffset), |slice|)
      ensures old(TrailerArrives()) && s != OK ==>
                old(dest.fd.content) <= dest.fd.content < old(dest.Stream()) + Encode(old(blockOffset), slice, true)
      ensures old(FailsOnlyThere()) ==> s == OK
    {
      var left, begin, ptr := slice, true, address;
      ghost var goal, lost := dest.Stream() + Encode(blockOffset, slice, true), false;
      Started(dest.Stream(), Encode(blockOffset, slice, true));
      ContentOnDisk(dest.Stream(), blockOffset, slice);
      hide OnDisk;
      hide Encode;
      hide EndOffset;
      hide Progress;
      while true
        invariant Valid()
        invariant Progress(dest.Stream(), Encode(blockOffset, left, begin), goal, lost)
        invariant EndOffset(blockOffset, |left|) == EndOffset(old(blockOffset), |slice|)
        invariant !lost ==> old(dest.fd.content) <= dest.fd.content
        invariant begin ==> !lost && TrailerArrives() == old(TrailerArrives()) && FailsOnlyThere() == old(FailsOnlyThere())
        invariant !begin ==> blockOffset == BLOCK_SIZE && dest.pos == 0 && lost == !old(TrailerArrives())
        invariant !begin && old(FailsOnlyThere()) ==> dest.fd.outcomes == []
        decreases |left|, if Start(blockOffset) + HEADER_SIZE == BLOCK_SIZE then 1 else 0
      {
        var len;
        s, len, lost := Turn(left, begin, ptr, goal, lost);
        if s != OK || len == |left| { return; }
        ptr := ptr + len;
        left := left[len..];
        begin := false;
      }
    }

    /** The bytes of the record after its next fragment. */
    ghost function AfterNext(left: seq<byte>, begin: bool): seq<byte>
      requires Valid()
      reads this, dest, typeCrc
    {
      var len := FragmentLength(blockOffset, |left|);
      if len == |left| then [] else Encode(BLOCK_SIZE, left[len..], false)
    }
  }

  /** What has been appended to the stream is on disk as the format demands. */
  lemma ContentOnDisk(stream: seq<byte>, off: Offset, data: seq<byte>)
    ensures var content := stream + Encode(off, data, true); OnDisk(off, data, content[|stream|..])
  {
    hide OnDisk;
    hide Encode;
    RecordIsOnDisk(off, data);
    DropConcat(stream, Encode(off, data, true));
  }

  /** A proper prefix stays one when more follows. */
  lemma Longer<T>(c: seq<T>, s: seq<T>, a: seq<T>, b: seq<T>)
    ensures c < s + a ==> c < s + (a + b)
  {
    Regroup(s, a, b);
  }

  /** Stream and what is still to be written make up the goal, or bytes are missing for good. */
  ghost predicate Progress<T>(stream: seq<T>, rest: seq<T>, goal: seq<T>, lost: bool) {
    if lost then |stream| + |rest| < |goal| else stream + rest == goal
  }

  lemma Started<T>(stream: seq<T>, rest: seq<T>)
    ensures Progress(stream, rest, stream + rest, false)
  {}

  /** One fragment more, or the end. */
  lemma Advanced<T>(stream: seq<T>, next: seq<T>, rest: seq<T>, goal: seq<T>, lost: bool, content: seq<T>, ok: bool, missing: bool)
    requires Progress(stream, next + rest, goal, lost)
    requires !missing && ok ==> content == stream + next
    requires !missing && !ok ==> content < stream + next
    requires missing && ok ==> |content| < |stream| + |next|
    ensures ok ==> Progress(content, rest, goal, lost || missing)
    ensures ok && rest == [] ==> (!(lost || missing) <==> content == goal)
    ensures !ok && !lost && !missing ==> content < goal
  {
    Regroup(stream, next, rest);
    if !ok && !missing { Longer(content, stream, next, rest); }
  }

  // ---------- whole runs ----------

  /** The file holds exactly the records of history, and the writer stands at its end. */
  ghost predicate Holds(w: Writer, history: seq<seq<byte>>)
    reads w, w.dest, w.dest.buf, w.dest.fd, w.typeCrc
  {
    && w.Valid() && w.dest.pos == 0
    && w.dest.fd.content == EncodeAll(0, history)
    && At(w.blockOffset, |w.dest.fd.content|)
  }

  /** What is written next depends only on the place in the block. */
  lemma SamePlace(off: Offset, off': Offset, data: seq<byte>)
    requires off % BLOCK_SIZE == off' % BLOCK_SIZE
    ensures Encode(off, data, true) == Encode(off', data, true)
    ensures EndOffset(off, |data|) == EndOffset(off', |data|)
  {
    assert Start(off) == Start(off') && Trailer(off) == Trailer(off');
  }

  /** The log after one more record. */
  lemma OneMore(history: seq<seq<byte>>, off: Offset, data: seq<byte>)
    requires At(off, |EncodeAll(0, history)|)
    ensures Encode(off, data, true) == Encode(EndAll(0, history), data, true)
    ensures EncodeAll(0, history + [data]) == EncodeAll(0, history) + Encode(off, data, true)
    ensures At(EndOffset(off, |data|), |EncodeAll(0, history + [data])|)
  {
    EndIsAtLength(history);
    SamePlace(off, EndAll(0, history), data);
    EncodeAllAppend(0, history, [data]);
    One(EndAll(0, history), data);
    EndIsAtLength(history + [data]);
    OneEnd(EndAll(0, history), data);
  }

  lemma OneEnd(off: Offset, data: seq<byte>)
    ensures EndAll(off, [data]) == EndOffset(off, |data|)
  {
    assert EndAll(EndOffset(off, |data|), [data][1..]) == EndOffset(off, |data|);
  }

  /**
   One record on a log that holds history: acknowledged means recovered, and not
   acknowledged means not recovered, whatever the write calls did.
   */
  method LogRecord(w: Writer, data: seq<byte>, address: nat, ghost history: seq<seq<byte>>) returns (s: Status)
    requires Holds(w, history)
    modifies w, w.dest, w.dest.buf, w.dest.fd
    ensures s == OK ==> Holds(w, history + [data])
    ensures s == OK ==>
              && old(w.dest.fd.content) <= w.dest.fd.content
              && OnDisk(old(w.blockOffset), data, w.dest.fd.content[|old(w.dest.fd.content)|..])
    ensures Records(w.dest.fd.content) == if s == OK then history + [data] else history
  {
    OneMore(history, w.blockOffset, data);
    RoundTrip(history + [data]);
    NoBuffer(w);
    hide Encode;
    hide EncodeAll;
    hide EndAll;
    hide EndOffset;
    hide Records;
    hide OnDisk;
    hide At;
    s := w.AddRecord(data, address);
    if s != OK {
      CutRecord(w.dest.fd.content, history, data);
    }
  }

  lemma NoBuffer(w: Writer)
    requires w.Valid() && w.dest.pos == 0
    ensures w.dest.Stream() == w.dest.fd.content
  {}

  /**
   A run of records up to the first error, on a new log or one reopened by its length:
   what a reader then finds in the file is what was there before and exactly the
   acknowledged records.
   */
  method LogRecords(w: Writer, records: seq<seq<byte>>, ghost history: seq<seq<byte>>) returns (s: Status, acknowledged: nat)
    requires Holds(w, history)
    modifies w, w.dest, w.dest.buf, w.dest.fd
    ensures acknowledged <= |records| && (s == OK <==> acknowledged == |records|)
    ensures Records(w.dest.fd.content) == history + records[..acknowledged]
    ensures s == OK ==> Holds(w, history + records)
  {
    hide Holds;
    hide Records;
    s, acknowledged := OK, 0;
    Recovered(w, history);
    assert history + records[..0] == history;
    while acknowledged < |records|
      invariant acknowledged <= |records|
      invariant Holds(w, history + records[..acknowledged])
      invariant Records(w.dest.fd.content) == history + records[..acknowledged]
      invariant s == OK
    {
      s := LogRecord(w, records[acknowledged], 0, history + records[..acknowledged]);
      if s != OK { return; }
      TakeOneMore(history, records, acknowledged);
      acknowledged := acknowledged + 1;
    }
    assert records[..acknowledged] == records;
  }

  lemma TakeOneMore<T>(history: seq<T>, records: seq<T>, k: nat)
    requires k < |records|
    ensures history + records[..k] + [records[k]] == history + records[..k + 1]
  {}

  lemma Recovered(w: Writer, history: seq<seq<byte>>)
    requires Holds(w, history)
    ensures Records(w.dest.fd.content) == history
  {
    RoundTrip(history);
  }

  lemma Reduced(length: nat)
    ensures At(length % BLOCK_SIZE, length)
  {}

  /** A writer opened on a log of history, by the length of the file, continues it. */
  method Open(fd: Descriptor, ghost history: seq<seq<byte>>) returns (w: Writer)
    requires fd.content == EncodeAll(0, history)
    ensures fresh(w) && fresh(w.dest) && fresh(w.dest.buf) && fresh(w.typeCrc) && w.dest.fd == fd
    ensures Holds(w, history)
  {
    Reduced(|fd.content|);
    hide At;
    hide EncodeAll;
    var file := new PosixWritableFile(fd);
    w := new Writer(file, |fd.content|);
  }

  // ---------- the status that is not looked at ----------

  /** What somebody else has put into the file's buffer. */
  function Filling(): (s: seq<byte>)
    ensures |s| == BUFFER_SIZE
  {
    seq(BUFFER_SIZE, _ => 1)
  }

  /** A writer six bytes before the end of a block, its file's buffer full, and one write about to fail. */
  method FullBuffer() returns (w: Writer)
    ensures fresh(w) && fresh(w.dest) && fresh(w.dest.buf) && fresh(w.dest.fd) && w.Valid()
    ensures w.blockOffset == BLOCK_SIZE - 6 && w.FailsOnlyThere() && w.dest.Stream() == Filling()
  {
    var fd := new Descriptor([], [Failed(5)]);
    var file := new PosixWritableFile(fd);
    var fill := file.Append(Filling());
    w := new Writer(file, BLOCK_SIZE - 6);
  }

  /** AddRecord ignores the status of the trailer's append: here it reports any record as written, and the file is wrong. */
  method LostTrailer(slice: seq<byte>, address: nat) returns (s: Status, content: seq<byte>)
    ensures s == OK && content != Filling() + Encode(BLOCK_SIZE - 6, slice, true)
  {
    var w := FullBuffer();
    hide Encode;
    hide Filling;
    s := w.AddRecord(slice, address);
    content := w.dest.fd.content;
  }
}
