/** The receive buffer of a yamux stream (p2plib/yamux/util.go). */
module YamuxBuffer {
  import opened Words

  /** What a receive buffer means: room still granted to the peer, and the unread bytes. */
  datatype Buf = Buf(cap: Word, data: seq<Byte>) {
    predicate Fits() { cap + |data| < U32 }
  }

  datatype Growth = Growth(buf: Buf, needed: bool, delta: Word)

  /** GrowTo, on values; the arithmetic is the source's 32-bit arithmetic. */
  function Grow(b: Buf, max: Word, force: bool): (g: Growth)
    ensures g.buf.data == b.data
    ensures b.Fits() ==> g.buf.Fits() && g.buf.cap == b.cap + g.delta
    ensures b.Fits() && g.needed && g.delta > 0 ==> g.buf.cap + |b.data| == max
    ensures b.Fits() && !g.needed ==> g.delta == 0 && (b.cap + |b.data| >= max || max - b.cap - |b.data| < max / 2)
    ensures force ==> g.needed && (b.Fits() ==> g.buf.cap + |b.data| >= max)
  {
    var current := Add32(b.cap, Wrap32(|b.data|));
    if current >= max then Growth(b, force, 0)
    else
      var delta := Sub32(max, current);
      if delta < max / 2 && !force then Growth(b, false, 0)
      else Growth(b.(cap := Add32(b.cap, delta)), true, delta)
  }

  /** Bytes held by a list of segments. */
  function Flatten(segments: seq<seq<Byte>>): seq<Byte> {
    if segments == [] then [] else segments[0] + Flatten(segments[1..])
  }

  lemma {:induction false} FlattenAppend(segments: seq<seq<Byte>>, last: seq<Byte>)
    ensures Flatten(segments + [last]) == Flatten(segments) + last
  {
    if segments == [] {
      assert segments + [last] == [last];
      assert Flatten([last]) == last + Flatten([last][1..]);
    } else {
      assert (segments + [last])[1..] == segments[1..] + [last];
      FlattenAppend(segments[1..], last);
    }
  }

  /** The lengths of segments of which the first has been read up to skip. */
  function Lengths(segments: seq<seq<Byte>>, skip: nat): (ls: seq<nat>)
    requires segments != [] ==> skip <= |segments[0]|
    ensures |ls| == |segments| && (segments != [] ==> ls[0] == |segments[0]| - skip)
  {
    seq(|segments|, i requires 0 <= i < |segments| => |segments[i]| - (if i == 0 then skip else 0))
  }

  lemma LengthsAppend(segments: seq<seq<Byte>>, skip: nat, last: seq<Byte>)
    requires segments != [] ==> skip <= |segments[0]|
    requires segments == [] ==> skip == 0
    ensures Lengths(segments + [last], skip) == Lengths(segments, skip) + [|last|]
  {}

  lemma LengthsAdvance(segments: seq<seq<Byte>>, skip: nat, n: nat)
    requires segments != [] && skip + n <= |segments[0]|
    ensures Lengths(segments, skip + n) == Lengths(segments, skip)[0 := |segments[0]| - skip - n]
    ensures Lengths(segments[1..], 0) == Lengths(segments, skip)[1..]
  {}

  class SegmentedBuffer {
    var cap: Word
    var len: Word
    var readPos: nat
    var bPos: nat
    var b: seq<seq<Byte>>
    var bCap: nat // capacity of the slice b

    /** Unread bytes: the segments from bPos on, less the first readPos bytes. */
    ghost function Contents(): seq<Byte>
      requires bPos <= |b| && readPos <= |Flatten(b[bPos..])|
      reads this
    {
      Flatten(b[bPos..])[readPos..]
    }

    ghost function Segs(): seq<nat>
      requires bPos <= |b| && (bPos < |b| ==> readPos <= |b[bPos]|)
      reads this
    {
      Lengths(b[bPos..], readPos)
    }

    ghost predicate Valid()
      reads this
    {
      && bPos <= |b| <= bCap
      && (bPos < |b| ==> readPos < |b[bPos]|)
      && (bPos == |b| ==> readPos == 0)
      && (forall i :: bPos <= i < |b| ==> b[i] != [])
      && readPos <= |Flatten(b[bPos..])|
      && len == |Contents()|
      && cap + len < U32
    }

    ghost function View(): (v: Buf)
      requires Valid()
      reads this
      ensures v.Fits()
    {
      Buf(cap, Contents())
    }

    constructor (initialCapacity: Word)
      ensures Valid() && View() == Buf(initialCapacity, [])
    {
      cap, len, readPos, bPos, b, bCap := initialCapacity, 0, 0, 0, [], 16;
    }

    method GrowTo(max: Word, force: bool) returns (needed: bool, delta: Word)
      requires Valid()
      modifies `cap
      ensures Valid()
      ensures Growth(View(), needed, delta) == Grow(old(View()), max, force)
    {
      var currentWindow := Add32(cap, len);
      if currentWindow >= max {
        return force, 0;
      }
      delta := Sub32(max, currentWindow);
      if delta < max / 2 && !force {
        return false, 0;
      }
      cap := Add32(cap, delta);
      return true, delta;
    }

    /** Copies at most dst.Length bytes of the first unread segment; false is io.EOF. */
    method Read(dst: array<Byte>) returns (n: nat, ok: bool)
      requires Valid()
      modifies this, dst
      ensures Valid() && cap == old(cap)
      ensures n <= dst.Length && n <= |old(Contents())|
      ensures dst[..n] == old(Contents())[..n] && dst[n..] == old(dst[n..])
      ensures Contents() == old(Contents())[n..]
      ensures ok <==> old(Contents()) != []
      ensures n > 0 <==> ok && dst.Length > 0
      ensures ok ==> var segs := old(Segs());
                segs != [] && n == Min(dst.Length, segs[0]) &&
                Segs() == if n == segs[0] then segs[1..] else segs[0 := segs[0] - n]
    {
      if bPos == |b| {
        return 0, false;
      }
      FirstSegment();
      var data := b[bPos][readPos..];
      n := Min(dst.Length, |data|);
      forall i | 0 <= i < n { dst[i] := data[i]; }
      Advance(n);
      ok := true;
    }

    /** Moves the read position over n bytes of the first unread segment, and drops it when it is done. */
    method Advance(n: nat)
      requires Valid() && bPos < |b| && n <= |b[bPos]| - readPos
      modifies this
      ensures Valid() && cap == old(cap)
      ensures n <= |old(Contents())| && Contents() == old(Contents())[n..]
      ensures var segs := old(Segs());
              Segs() == if n == segs[0] then segs[1..] else segs[0 := segs[0] - n]
    {
      hide Lengths, Flatten;
      FirstSegment();
      ghost var contents := Contents();
      LengthsAdvance(b[bPos..], readPos, n);
      if n == |b[bPos]| - readPos {
        ghost var rest := b[bPos + 1..];
        assert b[bPos..][1..] == rest;
        b := b[bPos := []];
        bPos := bPos + 1;
        readPos := 0;
        assert b[bPos..] == rest;
        assert Contents() == Flatten(rest) == contents[n..];
      } else {
        readPos := readPos + n;
        FirstSegment();
      }
      if n > 0 {
        len := Sub32(len, n);
      }
    }

    /** The unread bytes start with the unread part of the segment at bPos. */
    lemma FirstSegment()
      requires bPos < |b| && readPos < |b[bPos]|
      ensures readPos <= |Flatten(b[bPos..])|
      ensures Contents() == b[bPos][readPos..] + Flatten(b[bPos + 1..])
    {
      assert b[bPos..][1..] == b[bPos + 1..];
    }

    method CheckOverflow(length: Word) returns (ok: bool)
      ensures ok <==> length <= cap
    {
      ok := !(cap < length);
    }

    /** The second critical section of Append: dst is what was read from the connection. */
    method Commit(dst: seq<Byte>)
      requires Valid() && |dst| <= cap
      modifies this
      ensures Valid() && Segs() == if dst == [] then old(Segs()) else old(Segs()) + [|dst|]
      ensures View() == Buf(old(cap) - |dst|, old(Contents()) + dst)
    {
      if |dst| > 0 {
        if |b| == bCap && bPos > 0 {
          Compact();
        }
        Push(dst);
      }
    }

    method Push(dst: seq<Byte>)
      requires Valid() && 0 < |dst| <= cap
      modifies this
      ensures Valid() && Segs() == old(Segs()) + [|dst|]
      ensures View() == Buf(old(cap) - |dst|, old(Contents()) + dst)
    {
      hide Lengths, Flatten;
      ghost var live := b[bPos..];
      FlattenAppend(live, dst);
      LengthsAppend(live, readPos, dst);
      len := Add32(len, |dst|);
      cap := Sub32(cap, |dst|);
      if |b| == bCap {
        bCap := 2 * bCap + 1; // append reallocates
      }
      b := b + [dst];
      assert b[bPos..] == live + [dst];
      assert Contents() == old(Contents()) + dst;
    }

    /** Shifts live segments to the front when at least a quarter of the slice is spent. */
    method Compact()
      requires Valid() && |b| == bCap
      modifies `b, `bPos
      ensures Valid() && Contents() == old(Contents()) && Segs() == old(Segs())
      ensures bPos == 0 || b == old(b)
      ensures |b| <= |old(b)|
    {
      if bPos == |b| {
        bPos := 0;
        b := [];
      } else if bPos > bCap / 4 {
        var copied := |b| - bPos;
        ghost var live := b[bPos..];
        // copy to the left, then drop the stale references
        b := b[bPos..] + b[copied..];
        b := b[..copied];
        assert b == live;
        bPos := 0;
        assert b[bPos..] == live;
      }
    }

    /** Append, run without interference between its two critical sections. */
    method Append(input: seq<Byte>) returns (ok: bool)
      requires Valid() && |input| < U32
      modifies this
      ensures Valid()
      ensures ok <==> |input| <= old(cap)
      ensures View() == if ok then Buf(old(cap) - |input|, old(Contents()) + input) else old(View())
    {
      ok := CheckOverflow(|input|);
      if ok {
        Commit(input);
      }
    }
  }
}
