/** The drive: its memory after a read, and the outcome of each command. */
module Drive {
  import opened Bytes

  class Drive {
    /** Byte o of the drive's memory after sector s has been read. */
    const memory: (nat, nat) -> byte
    /** Byte o of the data handed over by a read of sector s. */
    const transfer: (nat, nat) -> byte
    /** Whether the n-th command succeeds, the sector it leaves in memory if not, and what it writes then. */
    const answer: nat -> bool
    const stray: nat -> nat
    const noise: (nat, nat) -> byte
    var commands: nat
    /** The sector read last. */
    var last: nat

    constructor (memory: (nat, nat) -> byte, transfer: (nat, nat) -> byte, answer: nat -> bool, stray: nat -> nat,
                 noise: (nat, nat) -> byte)
      ensures this.memory == memory && this.transfer == transfer && this.answer == answer
    {
      this.memory, this.transfer, this.answer, this.stray, this.noise := memory, transfer, answer, stray, noise;
      commands, last := 0, 0;
    }

    /** n bytes of the memory after sector s has been read. */
    ghost function Ram(s: nat, offset: nat, n: nat): (r: seq<byte>)
      ensures |r| == n
    {
      seq(n, i requires 0 <= i < n => memory(s, offset + i))
    }

    ghost function User(s: nat, n: nat): (r: seq<byte>)
      ensures |r| == n
    {
      seq(n, i requires 0 <= i < n => transfer(s, i))
    }

    /** How many of the len commands from the n-th on succeed before one fails. */
    ghost function Answered(n: nat, len: nat): (k: nat)
      ensures k <= len
      ensures k == len <==> forall i :: n <= i < n + len ==> answer(i)
      decreases len
    {
      if len == 0 || !answer(n) then 0 else 1 + Answered(n + 1, len - 1)
    }

    lemma {:induction false} AnsweredNext(n: nat, len: nat)
      ensures Answered(n, len) == len ==> Answered(n, len + 1) == if answer(n + len) then len + 1 else len
      ensures Answered(n, len) < len ==> Answered(n, len + 1) == Answered(n, len)
      decreases len
    {
      if len > 0 && answer(n) {
        AnsweredNext(n + 1, len - 1);
      }
    }

    /** Commands after the first failure do not count. */
    lemma {:induction false} FailureFinal(n: nat, few: nat, many: nat)
      requires few <= many && Answered(n, few) < few
      ensures Answered(n, many) == Answered(n, few)
      decreases few
    {
      if answer(n) {
        FailureFinal(n + 1, few - 1, many - 1);
      }
    }

    /** The frame header of a sector just read gives the sector's number; only looked at on the first layer. */
    ghost predicate HeaderRight(sector: nat) {
      memory(sector, 0) % 2 == 0 ==>
        memory(sector, 1) as int * 0x1_0000 + memory(sector, 2) as int * 0x100 + memory(sector, 3) as int
          == 0x3_0000 + sector
    }

    /** A read command without data, or one whose data is not used. */
    method Read(sector: nat) returns (ok: bool)
      modifies this
      ensures ok == answer(old(commands)) && commands == old(commands) + 1
      ensures ok ==> last == sector
    {
      ok := answer(commands);
      last := if ok then sector else stray(commands);
      commands := commands + 1;
    }

    /** A read command that hands over data. */
    method ReadInto(sector: nat, buf: array<byte>, n: nat) returns (ok: bool)
      requires n <= buf.Length
      modifies this, buf
      ensures ok == answer(old(commands)) && commands == old(commands) + 1
      ensures ok ==> last == sector && buf[..n] == User(sector, n)
      ensures forall p :: n <= p < buf.Length ==> buf[p] == old(buf[p])
    {
      ok := answer(commands);
      if ok {
        forall i | 0 <= i < n {
          buf[i] := transfer(sector, i);
        }
        last := sector;
      } else {
        forall i | 0 <= i < n {
          buf[i] := noise(commands, i);
        }
        last := stray(commands);
      }
      commands := commands + 1;
    }

    /** dvd_memdump: copies from the memory; a failed dump may leave anything behind. */
    method MemDump(offset: nat, n: nat, buf: array<byte>, at: nat) returns (ok: bool)
      requires at + n <= buf.Length
      modifies this`commands, buf
      ensures ok == answer(old(commands)) && commands == old(commands) + 1
      ensures ok ==> buf[at..at + n] == Ram(last, offset, n)
      ensures forall p :: 0 <= p < at || at + n <= p < buf.Length ==> buf[p] == old(buf[p])
    {
      ok := answer(commands);
      if ok {
        forall i | 0 <= i < n {
          buf[at + i] := memory(last, offset + i);
        }
      } else {
        forall i | 0 <= i < n {
          buf[at + i] := noise(commands, i);
        }
      }
      commands := commands + 1;
    }
  }
}
