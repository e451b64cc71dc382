/** The TCP side of the HTTP server: an unpredictable send buffer, and `http_write` on top of it. */
module HttpTcp {
  import opened Words

  type u16 = x: int | 0 <= x < 0x1_0000

  datatype Err = Ok | Mem | Other

  /** TCP_SND_QUEUELEN of inc/lwipopts.h. */
  const SND_QUEUE_LEN: nat := 32

  /** A TCP connection as the server sees it. `sent` is every byte the connection has accepted. */
  class Pcb {
    var sndBuf: u16
    var sndQueueLen: u16
    const mss: u16
    ghost var sent: string
    /** How many writes were turned down. */
    ghost var refused: nat

    constructor (mss: u16)
      ensures sent == "" && this.mss == mss
    {
      this.mss := mss;
      sndBuf := *;
      sndQueueLen := *;
      sent := "";
      refused := 0;
    }

    /** HTTPD_MAX_WRITE_LEN. */
    function MaxWriteLen(): u16 {
      (2 * mss as int) % 0x1_0000
    }

    /** The most that one `http_write` enqueues: what is asked for, the room, and 2 * MSS. */
    function Most(length: nat, room: nat): nat {
      Min(length, Min(room, MaxWriteLen()))
    }

    /** There is room, and segments are not empty. */
    ghost predicate CanSend()
      reads this`sndBuf
    {
      sndBuf > 0 && MaxWriteLen() > 0
    }

    /** `altcp_write`: takes the whole of `bytes` or nothing, and leaves any room behind. */
    method Write(bytes: string) returns (err: Err)
      modifies this
      ensures sent == old(sent) + if err == Ok then bytes else ""
      ensures refused == old(refused) + if err == Ok then 0 else 1
    {
      err := *;
      sndBuf := *;
      sndQueueLen := *;
      sent := sent + if err == Ok then bytes else "";
      refused := refused + if err == Ok then 0 else 1;
    }

    /** Time passes: acknowledgements and memory pressure change the room. */
    method Environment()
      modifies this`sndBuf, this`sndQueueLen
    {
      sndBuf := *;
      sndQueueLen := *;
    }

    /** Acknowledgements arrive. */
    method GrantRoom()
      modifies this`sndBuf, this`sndQueueLen
      ensures sndBuf > 0
    {
      sndBuf := *;
      if sndBuf == 0 {
        sndBuf := 1;
      }
      sndQueueLen := *;
    }

    /** `http_write`: tries smaller and smaller lengths; `length` is how much was accepted. */
    method HttpWrite(bytes: string) returns (err: Err, length: u16)
      requires |bytes| < 0x1_0000
      modifies this
      ensures length <= |bytes| && sent == old(sent) + bytes[..length]
      ensures length <= Most(|bytes|, old(sndBuf)) && refused >= old(refused)
      ensures err == Ok && Most(|bytes|, old(sndBuf)) > 0 ==> length > 0
      ensures refused == old(refused) ==> err == Ok && length == Most(|bytes|, old(sndBuf))
      ensures err != Ok ==> length == 0
    {
      var len: u16 := |bytes|;
      if len == 0 {
        return Ok, 0;
      }
      var maxLen := sndBuf;
      if maxLen < len {
        len := maxLen;
      }
      maxLen := MaxWriteLen();
      if len > maxLen {
        len := maxLen;
      }
      ghost var limit := len;
      err := Write(bytes[..len]);
      len := NextLength(err, len);
      while err == Mem && len > 1
        invariant err == Ok ==> len <= limit && sent == old(sent) + bytes[..len] && (limit > 0 ==> len > 0)
        invariant refused >= old(refused) && (refused == old(refused) ==> err == Ok && len == limit)
        invariant err != Ok ==> sent == old(sent)
        invariant err == Mem && len > 1 ==> len <= limit
        decreases len, if err == Mem then 1 else 0
      {
        err := Write(bytes[..len]);
        len := NextLength(err, len);
      }
      length := if err == Ok then len else 0;
    }

    /** The length to try next, inside the loop of `http_write`. */
    method NextLength(err: Err, len: u16) returns (next: u16)
      ensures err != Mem ==> next == len
      ensures err == Mem ==> next == 1 || next == len / 2
    {
      next := len;
      if err == Mem {
        if sndBuf == 0 || sndQueueLen >= SND_QUEUE_LEN {
          next := 1;
        } else {
          next := len / 2;
        }
      }
    }
  }
}
