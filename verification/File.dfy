/**
 The buffered file under the log: a 64 KiB write buffer over a descriptor whose write
 call may write part of the data, be interrupted, or fail.
 */
module File {

  import opened Fixed

  const BUFFER_SIZE: nat := 65536
  const ENOENT: int := 2
  const EINTR: int := 4

  datatype Status = OK | NotFound | IOError

  /** How one call of write turns out: it writes at most n bytes, or fails. */
  datatype Outcome = Wrote(n: nat) | Failed(errno: int)

  /**
   An open descriptor. The outcomes of the coming write calls are fixed but unknown; once
   they are used up, every call writes everything.
   */
  class Descriptor {
    var content: seq<byte>
    var outcomes: seq<Outcome>

    constructor (content: seq<byte>, outcomes: seq<Outcome>)
      ensures this.content == content && this.outcomes == outcomes
    {
      this.content, this.outcomes := content, outcomes;
    }

    /** write(2): the number of bytes written, or -1 and errno. */
    method Write(data: seq<byte>) returns (n: int, errno: int)
      modifies this
      ensures outcomes == if |old(outcomes)| == 0 then [] else old(outcomes)[1..]
      ensures -1 <= n <= |data|
      ensures n == -1 ==> |old(outcomes)| > 0 && content == old(content)
      ensures n >= 0 ==> content == old(content) + data[..n]
      ensures |old(outcomes)| == 0 ==> n == |data|
      ensures |old(outcomes)| > 0 && old(outcomes)[0].Failed? ==> n == -1 && errno == old(outcomes)[0].errno
      ensures |old(outcomes)| > 0 && old(outcomes)[0].Wrote? ==>
                n == if old(outcomes)[0].n < |data| then old(outcomes)[0].n else |data|
    {
      errno := 0;
      if |outcomes| == 0 {
        n := |data|;
      } else {
        match outcomes[0] {
          case Wrote(k) => n := if k < |data| then k else |data|;
          case Failed(e) => n, errno := -1, e;
        }
        outcomes := outcomes[1..];
      }
      if n >= 0 { content := content + data[..n]; }
    }
  }

  /** Do so many bytes get written in full, when they are retried as far as the errors allow? */
  predicate Delivers(outcomes: seq<Outcome>, n: nat)
    decreases |outcomes|
  {
    n == 0 || |outcomes| == 0 ||
    match outcomes[0]
    case Wrote(k) => Delivers(outcomes[1..], if k < n then n - k else 0)
    case Failed(errno) => errno == EINTR && Delivers(outcomes[1..], n)
  }

  /** The outcomes still to come after that. */
  function Remaining(outcomes: seq<Outcome>, n: nat): seq<Outcome>
    decreases |outcomes|
  {
    if n == 0 || |outcomes| == 0 then outcomes
    else
      match outcomes[0]
      case Wrote(k) => Remaining(outcomes[1..], if k < n then n - k else 0)
      case Failed(errno) => if errno == EINTR then Remaining(outcomes[1..], n) else outcomes[1..]
  }

  /** The status in which the writing of so many bytes ends. */
  function StatusAfter(outcomes: seq<Outcome>, n: nat): Status
    decreases |outcomes|
  {
    if n == 0 || |outcomes| == 0 then OK
    else
      match outcomes[0]
      case Wrote(k) => StatusAfter(outcomes[1..], if k < n then n - k else 0)
      case Failed(errno) => if errno == EINTR then StatusAfter(outcomes[1..], n) else PosixError(errno)
  }

  lemma {:induction false} DeliversIsOK(outcomes: seq<Outcome>, n: nat)
    ensures Delivers(outcomes, n) <==> StatusAfter(outcomes, n) == OK
    decreases |outcomes|
  {
    if n > 0 && |outcomes| > 0 {
      match outcomes[0]
      case Wrote(k) => DeliversIsOK(outcomes[1..], if k < n then n - k else 0);
      case Failed(_) => DeliversIsOK(outcomes[1..], n);
    }
  }

  /** Any error but EINTR. */
  predicate Fatal(o: Outcome) {
    o.Failed? && o.errno != 4
  }

  /** The bytes that the first k calls would write, of enough data. */
  function Offered(outcomes: seq<Outcome>, k: nat): nat
    requires k <= |outcomes|
  {
    if k == 0 then 0 else Offered(outcomes, k - 1) + if outcomes[k - 1].Wrote? then outcomes[k - 1].n else 0
  }

  lemma {:induction false} OfferedFront(outcomes: seq<Outcome>, k: nat)
    requires 1 <= k <= |outcomes|
    ensures Offered(outcomes, k) == (if outcomes[0].Wrote? then outcomes[0].n else 0) + Offered(outcomes[1..], k - 1)
  {
    if k > 1 { OfferedFront(outcomes, k - 1); }
  }

  /**
   The first error that is not EINTR decides, if the data is not written by then: errno 2 makes
   NotFound of it, any other IOError.
   */
  lemma {:induction false} FirstErrorDecides(outcomes: seq<Outcome>, n: nat, k: nat)
    requires k < |outcomes| && Fatal(outcomes[k]) && forall i :: 0 <= i < k ==> !Fatal(outcomes[i])
    ensures StatusAfter(outcomes, n) == if Offered(outcomes, k) >= n then OK else if outcomes[k].errno == 2 then NotFound else IOError
    decreases k
  {
    if n > 0 && k > 0 {
      OfferedFront(outcomes, k);
      assert !Fatal(outcomes[0]);
      FirstErrorDecides(outcomes[1..], if outcomes[0].Failed? then n else if outcomes[0].n < n then n - outcomes[0].n else 0, k - 1);
    }
  }

  lemma {:induction false} NoErrorNoFailure(outcomes: seq<Outcome>, n: nat)
    requires forall i :: 0 <= i < |outcomes| ==> !Fatal(outcomes[i])
    ensures StatusAfter(outcomes, n) == OK
    decreases |outcomes|
  {
    if n > 0 && |outcomes| > 0 {
      assert !Fatal(outcomes[0]);
      NoErrorNoFailure(outcomes[1..], if outcomes[0].Failed? then n else if outcomes[0].n < n then n - outcomes[0].n else 0);
    }
  }

  /** The status of a failed system call. */
  function PosixError(errno: int): (s: Status)
    ensures s != OK
  {
    if errno == ENOENT then NotFound else IOError
  }

  class PosixWritableFile {
    const fd: Descriptor
    const buf: array<byte>
    var pos: nat

    ghost predicate Valid()
      reads this
    {
      buf.Length == BUFFER_SIZE && pos <= BUFFER_SIZE
    }

    /** Everything appended so far: what is in the file, then what is in the buffer. */
    ghost function Stream(): seq<byte>
      requires Valid()
      reads this, buf, fd
    {
      fd.content + buf[..pos]
    }

    constructor (fd: Descriptor)
      ensures this.fd == fd && fresh(buf) && Valid() && pos == 0
    {
      this.fd := fd;
      buf := new byte[BUFFER_SIZE];
      pos := 0;
    }

    /** memcpy into the buffer. */
    method Copy(at: nat, data: seq<byte>)
      requires Valid() && at + |data| <= BUFFER_SIZE
      modifies buf
      ensures buf[..at + |data|] == old(buf[..at]) + data
    {
      var i := 0;
      while i < |data|
        invariant 0 <= i <= |data|
        invariant buf[..at + i] == old(buf[..at]) + data[..i]
      {
        buf[at + i] := data[i];
        i := i + 1;
      }
    }

    /** Writes everything, or a proper prefix and an error. */
    method WriteUnbuffered(data: seq<byte>) returns (s: Status)
      modifies fd
      ensures s == OK ==> fd.content == old(fd.content) + data
      ensures s != OK ==> old(fd.content) <= fd.content < old(fd.content) + data
      ensures s == StatusAfter(old(fd.outcomes), |data|)
      ensures s == OK <==> Delivers(old(fd.outcomes), |data|)
      ensures fd.outcomes == Remaining(old(fd.outcomes), |data|)
    {
      DeliversIsOK(fd.outcomes, |data|);
      var left := data;
      while |left| > 0
        invariant old(fd.content) <= fd.content
        invariant fd.content + left == old(fd.content) + data
        invariant StatusAfter(fd.outcomes, |left|) == StatusAfter(old(fd.outcomes), |data|)
        invariant Remaining(fd.outcomes, |left|) == Remaining(old(fd.outcomes), |data|)
        decreases |fd.outcomes|, |left|
      {
        var n, errno := fd.Write(left);
        if n < 0 {
          if errno == EINTR { continue; }
          return PosixError(errno);
        }
        left := left[n..];
      }
      return OK;
    }

    /** Empties the buffer, into the file as far as it goes. */
    method FlushBuffer() returns (s: Status)
      requires Valid()
      modifies this, fd
      ensures Valid() && pos == 0
      ensures s == OK ==> fd.content == old(Stream())
      ensures s != OK ==> old(fd.content) <= fd.content < old(Stream())
      ensures s == StatusAfter(old(fd.outcomes), old(pos))
      ensures s == OK <==> Delivers(old(fd.outcomes), old(pos))
      ensures fd.outcomes == Remaining(old(fd.outcomes), old(pos))
    {
      s := WriteUnbuffered(buf[..pos]);
      pos := 0;
    }

    method Flush() returns (s: Status)
      requires Valid()
      modifies this, fd
      ensures Valid() && pos == 0
      ensures s == OK ==> fd.content == old(Stream())
      ensures s != OK ==> old(fd.content) <= fd.content < old(Stream())
      ensures s == StatusAfter(old(fd.outcomes), old(pos))
      ensures s == OK <==> Delivers(old(fd.outcomes), old(pos))
      ensures fd.outcomes == Remaining(old(fd.outcomes), old(pos))
    {
      s := FlushBuffer();
    }

    /**
     Appends the data to the stream, or fails with a proper prefix of the new stream in the
     file and the buffer lost. What fits the buffer reaches it without touching the file.
     */
    method Append(data: seq<byte>) returns (s: Status)
      requires Valid()
      modifies this, buf, fd
      ensures Valid()
      ensures s == OK ==> Stream() == old(Stream()) + data && old(fd.content) <= fd.content
      ensures s != OK ==> pos == 0 && old(fd.content) <= fd.content < old(Stream()) + data
      ensures old(pos) + |data| <= 65536 ==>
                s == OK && pos == old(pos) + |data| && fd.content == old(fd.content) && fd.outcomes == old(fd.outcomes)
      ensures |old(fd.outcomes)| == 0 ==> s == OK && fd.outcomes == []
      ensures 65536 < old(pos) + |data| && |data| < 65536 ==>
                && s == StatusAfter(old(fd.outcomes), 65536)
                && (s == OK <==> Delivers(old(fd.outcomes), 65536))
                && fd.outcomes == Remaining(old(fd.outcomes), 65536)
                && (s == OK ==> pos == old(pos) + |data| - 65536)
      ensures 65536 < old(pos) + |data| && |data| >= 65536 ==>
                var first, rest := StatusAfter(old(fd.outcomes), 65536), old(pos) + |data| - 65536;
                && (first != OK ==> s == first)
                && (first == OK && rest < 65536 ==> s == OK && pos == rest)
                && (first == OK && rest >= 65536 ==> s == StatusAfter(Remaining(old(fd.outcomes), 65536), rest) && pos == 0)
    {
      var copySize := if |data| < BUFFER_SIZE - pos then |data| else BUFFER_SIZE - pos;
      Copy(pos, data[..copySize]);
      var left := data[copySize..];
      pos := pos + copySize;
      if |left| == 0 { return OK; }
      s := FlushBuffer();
      if s != OK { return s; }
      if |left| < BUFFER_SIZE {
        Copy(0, left);
        pos := |left|;
        return OK;
      }
      s := WriteUnbuffered(left);
    }
  }

  function Concat(chunks: seq<seq<byte>>): seq<byte> {
    if |chunks| == 0 then [] else chunks[0] + Concat(chunks[1..])
  }

  lemma {:induction false} ConcatPrefix(chunks: seq<seq<byte>>, n: nat)
    requires n <= |chunks|
    ensures Concat(chunks[..n]) <= Concat(chunks)
    ensures n < |chunks| ==> Concat(chunks[..n]) + chunks[n] <= Concat(chunks)
    ensures n < |chunks| ==> Concat(chunks[..n + 1]) == Concat(chunks[..n]) + chunks[n]
  {
    if n > 0 {
      ConcatPrefix(chunks[1..], n - 1);
      assert chunks[..n][1..] == chunks[1..][..n - 1];
      if n < |chunks| { assert chunks[..n + 1][1..] == chunks[1..][..n]; }
    } else if |chunks| > 0 {
      assert chunks[..1][1..] == [];
    }
  }

  /**
   A run of appends up to the first error: while there is none, file and buffer together
   hold everything appended; at the error the file holds a prefix of it.
   */
  method AppendAll(file: PosixWritableFile, chunks: seq<seq<byte>>) returns (s: Status)
    requires file.Valid()
    modifies file, file.buf, file.fd
    ensures file.Valid()
    ensures s == OK ==> file.Stream() == old(file.Stream()) + Concat(chunks)
    ensures s != OK ==> old(file.fd.content) <= file.fd.content <= old(file.Stream()) + Concat(chunks)
  {
    var i := 0;
    assert chunks[..0] == [];
    while i < |chunks|
      invariant 0 <= i <= |chunks| && file.Valid()
      invariant file.Stream() == old(file.Stream()) + Concat(chunks[..i])
      invariant old(file.fd.content) <= file.fd.content
    {
      ConcatPrefix(chunks, i);
      s := file.Append(chunks[i]);
      if s != OK { return; }
      i := i + 1;
    }
    assert chunks[..i] == chunks;
    s := OK;
  }
}
