/** Pipes of src/pipe.c: a 512-byte ring with 32-bit counters that wrap, and two sleep channels.

    Each method is one stretch of a call between taking the pipe lock and giving it up, by returning or
    by sleeping.  A call that slept is resumed where it left off.  `readers` and `writers` are the
    processes asleep on &p->nread and &p->nwrite; wakeup empties a set. */
module Pipe {
  import opened Params

  const PIPESIZE := 512

  type Pid = nat

  datatype WriteResult = Written | Broken(at: nat) | WriterSleeps(at: nat)
  datatype ReadResult = Delivered(bytes: seq<char>) | Killed | ReaderSleeps

  // ----- counters that wrap -----

  /** With 0 to PIPESIZE bytes in the ring, the wrapped comparison for "full" is exact. */
  lemma FullTest(a: nat, d: nat)
    requires d <= a <= d + PIPESIZE
    ensures a % UINT == (d % UINT + PIPESIZE) % UINT <==> a == d + PIPESIZE
  {
    WrapSum(d, a - d);
    WrapSum(d, PIPESIZE);
    var r := d % UINT;
    assert 0 <= r < UINT;
  }

  /** And so is the one for "empty". */
  lemma EmptyTest(a: nat, d: nat)
    requires d <= a <= d + PIPESIZE
    ensures a % UINT == d % UINT <==> a == d
  {
    WrapSum(d, a - d);
  }

  lemma WrapSum(x: nat, y: nat)
    requires y < UINT
    ensures (x + y) % UINT == if x % UINT + y < UINT then x % UINT + y else x % UINT + y - UINT
  {
    var q, r := x / UINT, x % UINT;
    assert x == q * UINT + r;
    if r + y < UINT {
      assert x + y == q * UINT + (r + y);
    } else {
      assert x + y == (q + 1) * UINT + (r + y - UINT);
    }
  }

  /** The ring index survives the wrap because PIPESIZE divides 2^32. */
  lemma RingIndex(x: nat)
    ensures x % UINT % PIPESIZE == x % PIPESIZE
  {
    var q, r := x / UINT, x % UINT;
    ModIs(x, 0x80_0000 * q + r / PIPESIZE, r % PIPESIZE);
  }

  lemma ModIs(x: nat, t: nat, r: nat)
    requires x == PIPESIZE * t + r && r < PIPESIZE
    ensures x % PIPESIZE == r
  {
  }

  /** Live ring positions are all different. */
  lemma RingSlotsDistinct(j: nat, k: nat)
    requires j < k < j + PIPESIZE
    ensures j % PIPESIZE != k % PIPESIZE
  {
    var p, q := j / PIPESIZE, k / PIPESIZE;
    assert j == p * PIPESIZE + j % PIPESIZE && k == q * PIPESIZE + k % PIPESIZE;
  }

  class PipeDev {
    var data: array<char>
    var nread: nat       // number of bytes read, modulo 2^32
    var nwrite: nat      // number of bytes written, modulo 2^32
    var readopen: bool
    var writeopen: bool

    ghost var accepted: seq<char>    // every byte ever written
    ghost var delivered: seq<char>   // every byte ever read
    ghost var readers: set<Pid>      // asleep on &p->nread
    ghost var writers: set<Pid>      // asleep on &p->nwrite

    ghost predicate Empty() reads this { |accepted| == |delivered| }
    ghost predicate Full() reads this { |accepted| == |delivered| + PIPESIZE }

    /** The ring holds the bytes accepted but not delivered, in order. */
    ghost predicate Fifo()
      reads this, data
    {
      && data.Length == PIPESIZE
      && nread == |delivered| % UINT && nwrite == |accepted| % UINT
      && |delivered| <= |accepted| <= |delivered| + PIPESIZE
      && delivered == accepted[..|delivered|]
      && forall k :: |delivered| <= k < |accepted| ==> data[k % PIPESIZE] == accepted[k]
    }

    /** No wakeup was lost: whoever sleeps still has reason to. */
    ghost predicate SleepersWait()
      reads this
    {
      && (readers != {} ==> Empty() && writeopen && readopen)
      && (writers != {} ==> Full() && readopen)
    }

    ghost predicate Valid()
      reads this, data
    {
      Fifo() && SleepersWait()
    }

    /** pipealloc's pipe. */
    constructor ()
      ensures Valid() && fresh(data) && readopen && writeopen && accepted == [] && readers == {} && writers == {}
    {
      data := new char[PIPESIZE];
      nread, nwrite, readopen, writeopen := 0, 0, true, true;
      accepted, delivered, readers, writers := [], [], {}, {};
    }

    /** A reader and a writer are never both asleep. */
    lemma NeverBothAsleep()
      requires Valid()
      ensures readers == {} || writers == {}
    {
    }

    /** pipewrite of addr from index i on: it accepts bytes until all are in the ring, or the ring is full
        and nobody can read it (-1), or it has to sleep.  When it sleeps it has woken all readers. */
    method Write(pid: Pid, addr: seq<char>, i: nat) returns (r: WriteResult)
      requires Valid() && i <= |addr| && pid !in readers && pid !in writers
      modifies this`nwrite, this`accepted, this`readers, this`writers, data
      ensures Valid()
      ensures match r
              case Written =>
                accepted == old(accepted) + addr[i..] && readers == {} && writers == old(writers)
              case Broken(at) =>
                && i <= at < |addr| && accepted == old(accepted) + addr[i..at]
                && Full() && !readopen && writers == old(writers)
              case WriterSleeps(at) =>
                && i <= at < |addr| && accepted == old(accepted) + addr[i..at]
                && Full() && readopen && readers == {} && writers == old(writers) + {pid}
    {
      var k := i;
      while k < |addr|
        invariant i <= k <= |addr| && Fifo() && accepted == old(accepted) + addr[i..k]
        invariant writers == old(writers) && (writers != {} ==> Full() && readopen)
        invariant readers == old(readers) && (readers != {} ==> readopen)
        invariant k == i ==> SleepersWait()
        decreases |addr| - k
      {
        FullTest(|accepted|, |delivered|);
        if nwrite == (nread + PIPESIZE) % UINT {
          if !readopen {
            return Broken(k);
          }
          readers := {};
          writers := writers + {pid};
          return WriterSleeps(k);
        }
        Append(addr[k]);
        k := k + 1;
      }
      readers := {};
      assert addr[i..k] == addr[i..];
      return Written;
    }

    /** p->data[p->nwrite++ % PIPESIZE] = c */
    method Append(c: char)
      requires Fifo() && !Full()
      modifies this`nwrite, this`accepted, data
      ensures Fifo() && accepted == old(accepted) + [c]
    {
      RingIndex(|accepted|);
      WrapSum(|accepted|, 1);
      forall k | |delivered| <= k < |accepted|
        ensures k % PIPESIZE != |accepted| % PIPESIZE
      {
        RingSlotsDistinct(k, |accepted|);
      }
      data[nwrite % PIPESIZE] := c;
      nwrite := (nwrite + 1) % UINT;
      accepted := accepted + [c];
    }

    /** piperead of up to n bytes: it sleeps exactly on an empty pipe that can still be written; otherwise
        it delivers the oldest bytes, as many as there are up to n, and wakes all writers. */
    method Read(pid: Pid, n: int, killed: bool) returns (r: ReadResult)
      requires Valid() && readopen && pid !in readers && pid !in writers
      modifies this`nread, this`delivered, this`readers, this`writers
      ensures Valid() && accepted == old(accepted)
      ensures r.Delivered? <==> !(old(Empty()) && writeopen)
      ensures match r
              case Delivered(bytes) =>
                && delivered == old(delivered) + bytes && writers == {} && readers == old(readers)
                && (|bytes| == n || (|bytes| < n && Empty()) || (n < 0 && bytes == []))
              case Killed =>
                killed && delivered == old(delivered) && readers == old(readers) && writers == old(writers)
              case ReaderSleeps =>
                !killed && delivered == old(delivered) && readers == old(readers) + {pid} && writers == old(writers)
    {
      EmptyTest(|accepted|, |delivered|);
      if nread == nwrite && writeopen {
        if killed {
          return Killed;
        }
        readers := readers + {pid};
        return ReaderSleeps;
      }
      var bytes: seq<char> := [];
      var i := 0;
      while i < n
        invariant 0 <= i && (if n < 0 then i == 0 else i <= n) && |bytes| == i && Fifo()
        invariant delivered == old(delivered) + bytes && accepted == old(accepted)
        invariant readers == old(readers) && (readers != {} ==> Empty())
        decreases n - i
      {
        EmptyTest(|accepted|, |delivered|);
        if nread == nwrite {
          break;
        }
        var c := Take();
        bytes := bytes + [c];
        i := i + 1;
      }
      writers := {};
      return Delivered(bytes);
    }

    /** p->data[p->nread++ % PIPESIZE] */
    method Take() returns (c: char)
      requires Fifo() && !Empty()
      modifies this`nread, this`delivered
      ensures Fifo() && delivered == old(delivered) + [c]
    {
      RingIndex(|delivered|);
      WrapSum(|delivered|, 1);
      c := data[nread % PIPESIZE];
      assert c == accepted[|delivered|];
      nread := (nread + 1) % UINT;
      delivered := delivered + [c];
    }

    /** pipeclose of one end: everyone asleep at the other end is woken; the pipe is to be freed exactly
        when both ends are closed.  An end is closed only when no call on it is in progress. */
    method Close(writable: bool) returns (free: bool)
      requires Valid() && (if writable then writers == {} else readers == {})
      modifies this`readopen, this`writeopen, this`readers, this`writers
      ensures Valid() && free == (!readopen && !writeopen)
      ensures if writable then !writeopen && readopen == old(readopen) && readers == {} && writers == old(writers)
              else !readopen && writeopen == old(writeopen) && writers == {} && readers == old(readers)
    {
      if writable {
        writeopen := false;
        readers := {};
      } else {
        readopen := false;
        writers := {};
      }
      free := !readopen && !writeopen;
    }
  }
}
