/** `esl_buffer`: a sliding window over a buffer that is compacted and regrown on demand. */
module PacketBuffer {
  import opened Bytes
  import opened Members

  const LF: byte := 0x0A
  const CR: byte := 0x0D

  // ----- packet terminators in a window -----

  /** What the byte at `p` means to the scans: no terminator yet, none to come, or one ending at `end`. */
  datatype Look = GoOn | Stop | Found(end: nat)

  function LookAt(w: seq<byte>, p: nat): (r: Look)
    requires p < |w|
    ensures r.Found? ==> p < r.end < |w| && w[r.end] == LF
  {
    if w[p] != LF then GoOn
    else if p + 1 >= |w| then Stop
    else
      var pe := if w[p + 1] == CR then p + 2 else p + 1;
      if pe >= |w| then Stop else if w[pe] == LF then Found(pe) else GoOn
  }

  /**
   The first blank line at or after `p`: the position of its newline. The scan
   gives up at a NUL and when the window ends inside a possible terminator.
   */
  function FindPacket(w: seq<byte>, p: nat): (r: Option<nat>)
    ensures r.Some? ==> p < r.value < |w| && w[r.value] == LF
    decreases |w| - p
  {
    if p >= |w| || w[p] == 0 then None
    else
      match LookAt(w, p)
      case GoOn => FindPacket(w, p + 1)
      case Stop => None
      case Found(end) => Some(end)
  }

  function CountPackets(w: seq<byte>, p: nat): nat
    decreases |w| - p
  {
    match FindPacket(w, p)
    case None => 0
    case Some(end) => 1 + CountPackets(w, end + 1)
  }

  /** One turn of the counting loop. */
  lemma CountStep(w: seq<byte>, p: nat)
    ensures CountPackets(w, p) ==
            if p >= |w| || w[p] == 0 then 0
            else match LookAt(w, p)
                 case GoOn => CountPackets(w, p + 1)
                 case Stop => 0
                 case Found(end) => 1 + CountPackets(w, end + 1)
  {
    hide LookAt;
  }

  /** One turn of the scan for the first packet. */
  lemma FindStep(w: seq<byte>, p: nat)
    ensures FindPacket(w, p) ==
            if p >= |w| || w[p] == 0 then None
            else match LookAt(w, p)
                 case GoOn => FindPacket(w, p + 1)
                 case Stop => None
                 case Found(end) => Some(end)
  {
    hide LookAt;
  }

  /** A terminator found in a window is the one found in every longer window. */
  lemma {:induction false} FindIsStable(w: seq<byte>, more: seq<byte>, p: nat)
    requires FindPacket(w, p).Some?
    ensures FindPacket(w + more, p) == FindPacket(w, p)
    decreases |w| - p
  {
    if LookAt(w, p).GoOn? { FindIsStable(w, more, p + 1); }
  }

  /** A terminator found in a window is also found in every part of it that reaches past the terminator. */
  lemma {:induction false} FindOnPrefix(w: seq<byte>, more: seq<byte>, p: nat)
    requires FindPacket(w + more, p).Some? && FindPacket(w + more, p).value < |w|
    ensures FindPacket(w, p) == FindPacket(w + more, p)
    decreases |w| - p
  {
    if LookAt(w + more, p).GoOn? { FindOnPrefix(w, more, p + 1); }
  }

  // ----- which bytes end a packet -----

  /** The newline at `e` ends an empty line: a newline stands in front of it, with at most a carriage return between. */
  predicate EndsBlankLine(w: seq<byte>, e: nat) {
    && e < |w| && w[e] == LF
    && ((e >= 1 && w[e - 1] == LF) || (e >= 2 && w[e - 1] == CR && w[e - 2] == LF))
  }

  /** The newline at `e` ends the first packet: it is the first of its kind, with no NUL in front of it. */
  ghost predicate EndsPacket(w: seq<byte>, e: nat) {
    && EndsBlankLine(w, e) && 0 !in w[..e]
    && forall d :: 0 <= d < e ==> !EndsBlankLine(w, d)
  }

  /** No empty line starts in front of `p`. */
  ghost predicate NoneStarts(w: seq<byte>, p: nat) {
    && p <= |w| && 0 !in w[..p]
    && (forall d :: 0 <= d <= p ==> !EndsBlankLine(w, d))
    && (p >= 1 && p + 1 < |w| && w[p - 1] == LF && w[p] == CR ==> w[p + 1] != LF)
  }

  lemma FoundEndsPacket(w: seq<byte>, p: nat, end: nat, e: nat)
    requires NoneStarts(w, p) && p < |w| && w[p] != 0 && LookAt(w, p) == Found(end)
    ensures EndsPacket(w, e) <==> e == end
  {
    assert EndsBlankLine(w, end);
    assert forall d :: p < d < end ==> !EndsBlankLine(w, d);
    assert forall d :: 0 <= d < end ==> w[d] != 0;
  }

  lemma {:induction false} FindFrom(w: seq<byte>, p: nat, e: nat)
    requires NoneStarts(w, p)
    ensures FindPacket(w, p) == Some(e) <==> EndsPacket(w, e)
    decreases |w| - p
  {
    if p < |w| && w[p] != 0 {
      match LookAt(w, p)
      case GoOn => FindFrom(w, p + 1, e);
      case Stop =>
      case Found(end) => FoundEndsPacket(w, p, end, e);
    }
  }

  /** The scan finds exactly the first empty line. */
  lemma FindsFirstBlankLine(w: seq<byte>, e: nat)
    ensures FindPacket(w, 0) == Some(e) <==> EndsPacket(w, e)
  {
    FindFrom(w, 0, e);
  }

  /** A look at a byte of the tail from `b` sees the same, `b` positions earlier. */
  lemma {:induction false} FindInTail(w: seq<byte>, b: nat, p: nat)
    requires b <= p <= |w|
    ensures FindPacket(w, p) == match FindPacket(w[b..], p - b)
                                case None => None
                                case Some(end) => Some(b + end)
    decreases |w| - p
  {
    if p < |w| && LookAt(w, p).GoOn? { FindInTail(w, b, p + 1); }
  }

  lemma {:induction false} CountInTail(w: seq<byte>, b: nat, p: nat)
    requires b <= p <= |w|
    ensures CountPackets(w, p) == CountPackets(w[b..], p - b)
    decreases |w| - p
  {
    hide FindPacket;
    FindInTail(w, b, p);
    if FindPacket(w, p).Some? { CountInTail(w, b, FindPacket(w, p).value + 1); }
  }

  /** A window without an empty line holds no packet; else the first one ends there and the rest is counted alone. */
  lemma CountsBlankLines(w: seq<byte>)
    ensures CountPackets(w, 0) == 0 <==> forall e :: 0 <= e < |w| ==> !EndsPacket(w, e)
    ensures forall e :: 0 <= e < |w| && EndsPacket(w, e) ==> CountPackets(w, 0) == 1 + CountPackets(w[e + 1..], 0)
  {
    hide EndsPacket, FindPacket;
    forall e | 0 <= e < |w| ensures FindPacket(w, 0) == Some(e) <==> EndsPacket(w, e) { FindsFirstBlankLine(w, e); }
    if FindPacket(w, 0).Some? { CountInTail(w, FindPacket(w, 0).value + 1, FindPacket(w, 0).value + 1); }
  }

  /**
   `struct esl_buffer`. `head` is the offset of the head pointer from `data`.
   The ghost fields record all bytes ever accepted and ever taken out; `rewound`
   says that `Seek` or `ReadLoop` has been used, which serve bytes again.
   */
  class Buffer {
    var data: array<byte>
    var head: nat
    var used: nat
    var actuallyUsed: nat

    const maxLen: nat
    const blocksize: nat
    var loops: int
    ghost var accepted: seq<byte>
    ghost var removed: seq<byte>
    ghost var rewound: bool

    /** The bytes waiting to be read. */
    ghost function Pending(): (s: seq<byte>)
      requires head + used <= data.Length
      reads this, data
      ensures |s| == used
    {
      data[head..head + used]
    }

    ghost predicate Valid()
      reads this, data
    {
      && head + used == actuallyUsed <= data.Length <= SIZE_MAX
      && maxLen <= SIZE_MAX && blocksize <= SIZE_MAX
      && (!rewound ==> removed + Pending() == accepted)
      && (!rewound && maxLen != 0 ==> used <= maxLen)
    }

    constructor (blocksize: nat, startLen: nat, maxLen: nat)
      requires blocksize <= SIZE_MAX && startLen <= SIZE_MAX && maxLen <= SIZE_MAX
      ensures Valid() && fresh(data) && Pending() == [] && accepted == removed == [] && !rewound
      ensures this.maxLen == maxLen
      ensures this.blocksize == if blocksize != 0 then blocksize else if startLen != 0 then startLen else 250
    {
      var start := if startLen == 0 then 250 else startLen;
      this.blocksize := if blocksize == 0 then start else blocksize;
      this.maxLen := maxLen;
      data := new byte[start];
      head, used, actuallyUsed, loops := 0, 0, 0, 0;
      accepted, removed, rewound := [], [], false;
    }

    /** The checks of `esl_buffer_write` that can refuse `n` bytes. */
    predicate Accepts(n: nat)
      reads this
    {
      && n <= SIZE_MAX - used
      && (maxLen != 0 ==> used <= maxLen && n <= maxLen - used)
      && (data.Length - used < n ==> n <= SIZE_MAX - data.Length && blocksize <= SIZE_MAX - data.Length)
    }

    /** Bytes are refused exactly when they pass the maximum, or the memory for them would pass the address range. */
    lemma AcceptsWhatFits(n: nat)
      requires Valid()
      ensures Accepts(n) <==>
              && used + n <= (if maxLen != 0 then maxLen else SIZE_MAX)
              && (used + n <= data.Length || data.Length + Max(n, blocksize) <= SIZE_MAX)
    {
    }

    /** `memmove` of the pending bytes to the front. */
    method Compact()
      requires Valid()
      modifies this`head, this`actuallyUsed, data
      ensures Valid() && head == 0 && Pending() == old(Pending())
    {
      forall i | 0 <= i < used {
        data[i] := data[head + i];
      }
      head := 0;
      actuallyUsed := used;
      assert Pending() == old(Pending());
    }

    /** `realloc` to a larger size. */
    method Regrow(newSize: nat)
      requires Valid() && head == 0 && data.Length < newSize <= SIZE_MAX
      modifies this`head, this`data
      ensures Valid() && fresh(data) && data.Length == newSize && head == 0 && Pending() == old(Pending())
    {
      var bigger := new byte[newSize];
      forall i | 0 <= i < data.Length {
        bigger[i] := data[i];
      }
      data := bigger;
      head := 0;
      assert Pending() == old(Pending());
    }

    method Append(bytes: seq<byte>)
      requires Valid() && actuallyUsed + |bytes| <= data.Length
      requires maxLen != 0 ==> used + |bytes| <= maxLen
      modifies this`used, this`actuallyUsed, this`accepted, data
      ensures Valid() && Pending() == old(Pending()) + bytes
    {
      forall i | 0 <= i < |bytes| {
        data[head + used + i] := bytes[i];
      }
      used := used + |bytes|;
      actuallyUsed := actuallyUsed + |bytes|;
      accepted := accepted + bytes;
      assert Pending() == old(Pending()) + bytes;
      assert removed + old(Pending()) + bytes == removed + (old(Pending()) + bytes);
    }

    /** Appends all of `bytes`, or refuses and keeps what is pending. */
    method Write(bytes: seq<byte>) returns (r: nat)
      requires Valid()
      modifies this, data
      ensures Valid() && (data == old(data) || fresh(data))
      ensures rewound == old(rewound) && removed == old(removed)
      ensures bytes != [] && old(Accepts(|bytes|)) ==> Pending() == old(Pending()) + bytes && r == used > 0
      ensures bytes == [] || !old(Accepts(|bytes|)) ==> Pending() == old(Pending()) && accepted == old(accepted)
      ensures r == if bytes == [] || old(Accepts(|bytes|)) then used else 0
      ensures data.Length == old(data.Length) ||
              (used > old(data.Length) && data.Length == old(data.Length) + Max(|bytes|, blocksize))
    {
      if bytes == [] { return used; }
      if |bytes| > SIZE_MAX - used { return 0; }
      if maxLen != 0 && used > maxLen { return 0; }
      if maxLen != 0 && |bytes| > maxLen - used { return 0; }
      var actualFreespace := data.Length - actuallyUsed;
      if actualFreespace < |bytes| && (maxLen == 0 || used + |bytes| <= maxLen) {
        Compact();
      }
      if data.Length - used < |bytes| {
        if |bytes| > SIZE_MAX - data.Length { return 0; }
        if blocksize > SIZE_MAX - data.Length { return 0; }
        Regrow(Max(data.Length + |bytes|, data.Length + blocksize));
      }
      Append(bytes);
      return used;
    }

    /** Takes up to `n` bytes from the front. */
    method Read(n: nat) returns (bytes: seq<byte>)
      requires Valid()
      modifies this`used, this`head, this`removed
      ensures Valid()
      ensures bytes == old(Pending())[..Min(n, old(used))]
      ensures Pending() == old(Pending())[Min(n, old(used))..]
      ensures removed == old(removed) + bytes
    {
      if used < 1 {
        used := 0;
        assert removed + [] == removed;
        return [];
      }
      var reading := if used >= n then n else used;
      bytes := data[head..head + reading];
      used := used - reading;
      head := head + reading;
      removed := removed + bytes;
      assert old(Pending()) == bytes + Pending();
    }

    /** Drops up to `n` bytes from the front and says how many are left. */
    method Toss(n: nat) returns (left: nat)
      requires Valid()
      modifies this`used, this`head, this`removed
      ensures Valid()
      ensures Pending() == old(Pending())[Min(n, old(used))..] && left == used
      ensures removed == old(removed) + old(Pending())[..Min(n, old(used))]
    {
      if used < 1 {
        used := 0;
        assert removed + [] == removed;
        return 0;
      }
      var reading := if used >= n then n else used;
      removed := removed + Pending()[..reading];
      used := used - reading;
      head := head + reading;
      assert old(Pending()) == old(Pending())[..reading] + Pending();
      return used;
    }

    method Zero()
      requires Valid()
      modifies this`used, this`actuallyUsed, this`head, this`removed
      ensures Valid() && Pending() == [] && removed == old(removed + Pending())
    {
      removed := removed + Pending();
      used, actuallyUsed, head := 0, 0, 0;
    }

    /**
     `esl_buffer_seek`: the window restarts at an offset from the start of the
     data, so bytes read before can come back.
     */
    method Seek(n: nat) returns (r: nat)
      requires Valid()
      modifies this`used, this`head, this`rewound
      ensures Valid()
      ensures r == Min(n, old(used))
      ensures old(used) > 0 ==> head == r && Pending() == old(data[..actuallyUsed])[r..]
      ensures old(used) == 0 ==> Pending() == [] && rewound == old(rewound)
    {
      if used < 1 {
        used := 0;
        return 0;
      }
      var reading := if used >= n then n else used;
      used := actuallyUsed - reading;
      head := reading;
      rewound := true;
      return reading;
    }

    /** The window takes all of the data again, for one of the loops left. */
    method Rewind()
      requires Valid()
      modifies this`used, this`head, this`rewound, this`loops
      ensures Valid() && rewound && loops == old(loops) - 1 && used == actuallyUsed
      ensures Pending() == data[..actuallyUsed]
    {
      head := 0;
      used := actuallyUsed;
      rewound := true;
      loops := loops - 1;
    }

    /** The second read, behind what the first one gave. */
    method ReadAgain(n: nat, front: seq<byte>, ghost start: seq<byte>) returns (bytes: seq<byte>, len: nat)
      requires Valid() && removed == start + front
      modifies this`used, this`head, this`removed, this`rewound, this`loops
      ensures Valid() && rewound && loops == old(loops) - 1 && len == Min(n, old(actuallyUsed))
      ensures bytes == front + old(data[..actuallyUsed])[..len] && removed == start + bytes
      ensures Pending() == old(data[..actuallyUsed])[len..]
    {
      Rewind();
      var again := Read(n);
      Associative(start, front, again);
      return front + again, |again|;
    }

    lemma Bounds()
      requires Valid()
      ensures head + used == actuallyUsed <= data.Length && |Pending()| == used
    {
    }

    static lemma TakeAll(s: seq<byte>)
      ensures s[..|s|] == s && s[0..] == s && s[..0] == [] && s + [] == s
    {
    }

    /**
     `esl_buffer_read_loop`: when the window runs dry and loops are left, it is
     rewound to the start of the data. The count returned is that of the second
     read alone.
     */
    method ReadLoop(n: nat) returns (bytes: seq<byte>, len: nat)
      requires Valid()
      modifies this
      ensures Valid() && data == old(data)
      ensures n <= old(used) || loops == old(loops) == 0 ==>
                && bytes == old(Pending())[..Min(n, old(used))] && len == |bytes| && loops == old(loops)
                && Pending() == old(Pending())[Min(n, old(used))..] && rewound == old(rewound)
      ensures n > old(used) && old(loops) != 0 ==>
                var reading := Min(n - old(used), old(actuallyUsed));
                && bytes == old(Pending()) + old(data[..actuallyUsed])[..reading] && len == reading
                && loops == old(loops) - 1
                && Pending() == old(data[..actuallyUsed])[reading..] && rewound
      ensures removed == old(removed) + bytes && accepted == old(accepted)
    {
      hide Valid, Pending;
      Bounds();
      TakeAll(Pending());
      TakeAll(removed);
      if n == 0 { return [], 0; }
      ghost var start := removed;
      bytes := Read(n);
      len := |bytes|;
      if len < n {
        if loops == 0 { return; }
        bytes, len := ReadAgain(n - len, bytes, start);
      }
    }

    /** The test that both scans below make at each byte. */
    method Look(p: nat) returns (look: Look)
      requires Valid() && p < used
      ensures look == LookAt(Pending(), p)
    {
      if data[head + p] != LF { return GoOn; }
      var pe := p + 1;
      if pe >= used { return Stop; }
      if data[head + pe] == CR {
        pe := pe + 1;
        if pe >= used { return Stop; }
      }
      return if data[head + pe] == LF then Found(pe) else GoOn;
    }

    method PacketCount() returns (x: nat)
      requires Valid()
      ensures x == CountPackets(Pending(), 0)
    {
      hide LookAt, CountPackets, FindPacket;
      ghost var w := Pending();
      x := 0;
      var p := 0;
      while p < used && data[head + p] != 0
        invariant Valid() && w == Pending() && p <= used
        invariant x + CountPackets(w, p) == CountPackets(w, 0)
        decreases used - p
      {
        CountStep(w, p);
        var look := Look(p);
        if look == Stop { break; }
        if look.Found? {
          p := look.end;
          x := x + 1;
        }
        p := p + 1;
      }
      CountStep(w, p);
    }

    /** The scan for the end of the first packet. */
    method PacketLength(maxlen: nat) returns (datalen: nat)
      requires Valid()
      ensures var end := FindPacket(Pending(), 0);
              datalen == if end.Some? then Min(end.value, maxlen) else 0
    {
      hide LookAt, FindPacket;
      ghost var w := Pending();
      datalen := 0;
      var p := 0;
      while p < used && data[head + p] != 0
        invariant p <= used && datalen == 0
        invariant FindPacket(w, p) == FindPacket(w, 0)
        decreases used - p
      {
        FindStep(w, p);
        var look := Look(p);
        if look == Stop { return; }
        if look.Found? { return Min(look.end, maxlen); }
        p := p + 1;
      }
      FindStep(w, p);
    }

    /**
     `esl_buffer_read_packet`: everything in front of the newline that ends the
     first packet (at most `maxlen` bytes); that newline stays in the buffer.
     */
    method ReadPacket(maxlen: nat) returns (bytes: seq<byte>)
      requires Valid()
      modifies this`used, this`head, this`removed
      ensures Valid()
      ensures var end := FindPacket(old(Pending()), 0);
              var n := if end.Some? then Min(end.value, maxlen) else 0;
              bytes == old(Pending())[..n] && Pending() == old(Pending())[n..]
      ensures removed == old(removed) + bytes
    {
      hide FindPacket;
      var datalen := PacketLength(maxlen);
      bytes := Read(datalen);
    }
  }

  /** With room for a byte, a packet is handed out exactly when the count says there is one. */
  lemma PacketIffCounted(w: seq<byte>, maxlen: nat)
    requires maxlen > 0
    ensures CountPackets(w, 0) > 0 <==> FindPacket(w, 0).Some? && Min(FindPacket(w, 0).value, maxlen) > 0
  {
  }
}
