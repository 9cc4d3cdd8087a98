/** Splitting payloads that exceed one Ethernet frame, and the transmission time of the pieces. */
module Fragments {
  import opened Arithmetic
  import opened AnalysisMath
  import opened Traffic

  /** Payloads above this size are split (the source compares with the default MTU). */
  const SPLIT_ABOVE := 1500

  /** The source keeps the numbers of the pieces in an array of this size. */
  const MAX_FRAG := 50

  /** What the source keeps about splitting a message: lengths in bytes, times in picoseconds. */
  datatype Payload = Payload(
    priority: Priority, length: int, lengthInBits: int, fragmented: bool, number: int, lastChunk: int,
    localID: seq<int>, lastChunkTime: int, transTime: int)

  /** The pieces of a payload: full frames of size mtu, then what is left. */
  function Pieces(length: int, mtu: int): seq<int>
    requires mtu > 0 && length > 0
    decreases length
  {
    if length <= mtu then [length] else [mtu] + Pieces(length - mtu, mtu)
  }

  function Sum(s: seq<int>): int {
    if s == [] then 0 else s[0] + Sum(s[1..])
  }

  /** The time the pieces take one after another, each with its own frame overhead. */
  function TimeOf(pieces: seq<int>, tau: int): int {
    if pieces == [] then 0 else (pieces[0] + FRAME_MAC) * 8 * tau + TimeOf(pieces[1..], tau)
  }

  /** The pieces add up to the payload, and the source's count and last chunk describe them. */
  lemma {:induction false} PiecesDescribed(length: int, mtu: int, tau: int)
    requires mtu > 0 && length > 0
    ensures Sum(Pieces(length, mtu)) == length
    ensures |Pieces(length, mtu)| == CeilDiv(length, mtu)
    ensures Pieces(length, mtu)[|Pieces(length, mtu)| - 1] == length - (CeilDiv(length, mtu) - 1) * mtu
    ensures TimeOf(Pieces(length, mtu), tau) == (length + CeilDiv(length, mtu) * FRAME_MAC) * 8 * tau
    decreases length
  {
    var rest := Pieces(length, mtu)[1..];
    if length <= mtu {
      DivUnique(-length, mtu, -1, mtu - length);
      assert rest == [];
    } else {
      PiecesDescribed(length - mtu, mtu, tau);
      assert rest == Pieces(length - mtu, mtu);
      DivShift(-length, mtu);
      var n := CeilDiv(length - mtu, mtu);
      assert n * mtu == (n - 1) * mtu + mtu;
      AddFrame(length - mtu, n, mtu, tau);
    }
  }

  lemma AddFrame(length: int, n: int, mtu: int, tau: int)
    ensures (mtu + FRAME_MAC) * 8 * tau + (length + n * FRAME_MAC) * 8 * tau
      == (length + mtu + (n + 1) * FRAME_MAC) * 8 * tau
  {
  }

  /** The source's formula for a fragmented message is the time of its pieces. */
  lemma FormulaIsTime(length: int, mtu: int, tau: int)
    requires mtu > 0 && length > 0
    ensures ((mtu + FRAME_MAC) * 8 * (CeilDiv(length, mtu) - 1) * tau)
      + (length - (CeilDiv(length, mtu) - 1) * mtu + FRAME_MAC) * 8 * tau
         == TimeOf(Pieces(length, mtu), tau)
  {
    PiecesDescribed(length, mtu, tau);
    Formula(length, CeilDiv(length, mtu), mtu, tau);
  }

  lemma Formula(length: int, n: int, mtu: int, tau: int)
    ensures ((mtu + FRAME_MAC) * 8 * (n - 1) * tau) + (length - (n - 1) * mtu + FRAME_MAC) * 8 * tau
      == (length + n * FRAME_MAC) * 8 * tau
  {
    var k := n - 1;
    assert (mtu + FRAME_MAC) * 8 * k == mtu * 8 * k + FRAME_MAC * 8 * k;
    assert ((mtu + FRAME_MAC) * 8 * k) * tau + ((length - k * mtu + FRAME_MAC) * 8) * tau
        == ((mtu + FRAME_MAC) * 8 * k + (length - k * mtu + FRAME_MAC) * 8) * tau;
  }

  class Payloads {
    var list: seq<Payload>
    const mtu: int
    const tau: int

    ghost predicate Valid()
      reads this
    {
      mtu > 0 && forall i :: 0 <= i < |list| ==> list[i].length > 0 && |list[i].localID| == MAX_FRAG
    }

    constructor (list: seq<Payload>, mtu: int, tau: int)
      requires mtu > 0 && forall i :: 0 <= i < |list| ==> list[i].length > 0 && |list[i].localID| == MAX_FRAG
      ensures Valid() && this.list == list && this.mtu == mtu && this.tau == tau
    {
      this.list, this.mtu, this.tau := list, mtu, tau;
    }

    /** The pieces of a payload can be numbered. */
    ghost predicate Fits(p: Payload) {
      p.length > SPLIT_ABOVE && mtu > 0 ==> CeilDiv(p.length, mtu) <= MAX_FRAG
    }

    ghost predicate Split(before: Payload, p: Payload) {
      if before.length > SPLIT_ABOVE && mtu > 0 then
        && p == before.(fragmented := true, number := p.number, lastChunk := p.lastChunk, localID := p.localID)
        && p.number == |Pieces(before.length, mtu)| && p.lastChunk == Pieces(before.length, mtu)[p.number - 1]
        && |p.localID| == |before.localID|
        && forall j :: 0 <= j < |p.localID| ==> p.localID[j] == if j < p.number then j else before.localID[j]
      else p == before
    }

    method Defragmentation()
      requires Valid() && forall i :: 0 <= i < |list| ==> Fits(list[i])
      modifies this`list
      ensures Valid() && |list| == |old(list)|
      ensures forall i :: 0 <= i < |list| ==> Split(old(list)[i], list[i])
    {
      for i := 0 to |list|
        invariant Valid() && |list| == |old(list)|
        invariant forall j :: 0 <= j < i ==> Split(old(list)[j], list[j])
        invariant forall j :: i <= j < |list| ==> list[j] == old(list)[j]
      {
        if list[i].length > 1500 {
          PiecesDescribed(list[i].length, mtu, tau);
          var n := CeilDiv(list[i].length, mtu);
          var ids := Numbered(list[i].localID, n);
          list := list[i := list[i].(fragmented := true, number := n, lastChunk := list[i].length - (n - 1) * mtu,
            localID := ids)];
        }
      }
    }

    /** The first n entries count from 0. */
    static method Numbered(before: seq<int>, n: nat) returns (ids: seq<int>)
      requires n <= |before|
      ensures |ids| == |before| && forall j :: 0 <= j < |ids| ==> ids[j] == if j < n then j else before[j]
    {
      ids := before;
      for j := 0 to n
        invariant |ids| == |before| && forall k :: 0 <= k < |ids| ==> ids[k] == if k < j then k else before[k]
      {
        ids := ids[j := j];
      }
    }

    /** A payload that is marked as fragmented only when it was split. */
    ghost predicate WasSplit(p: Payload) {
      p.fragmented ==>
        mtu > 0 && p.length > 0 && p.number == |Pieces(p.length, mtu)| &&
          p.lastChunk == Pieces(p.length, mtu)[p.number - 1]
    }

    /** What is sent for a payload: its pieces, or all of it at once for ST traffic and small payloads. */
    ghost function Sent(p: Payload): seq<int>
      requires mtu > 0 && p.length > 0
    {
      if p.fragmented && !p.priority.ST? then Pieces(p.length, mtu) else [p.length]
    }

    /** Only the transmission time, and the length or the time of the last piece, are computed. */
    ghost predicate Timed(before: Payload, p: Payload)
      requires mtu > 0 && before.length > 0
    {
      var sent := Sent(before);
      && p.transTime == TimeOf(sent, tau)
      && if before.fragmented && !before.priority.ST? then
           p == before.(transTime := p.transTime, lastChunkTime := TimeOf([sent[|sent| - 1]], tau))
         else
           p == before.(transTime := p.transTime, lengthInBits := p.lengthInBits) && p.transTime == p.lengthInBits * tau
    }

    method ExtractTransTime()
      requires Valid() && (forall i :: 0 <= i < |list| ==> WasSplit(list[i]))
      modifies this`list
      ensures Valid() && |list| == |old(list)|
      ensures forall i :: 0 <= i < |list| ==> Timed(old(list)[i], list[i])
    {
      for i := 0 to |list|
        invariant Valid() && |list| == |old(list)|
        invariant forall j :: 0 <= j < i ==> Timed(old(list)[j], list[j])
        invariant forall j :: i <= j < |list| ==> list[j] == old(list)[j]
      {
        var p := list[i];
        OnePiece(p.length, tau);
        if p.priority.ST? {
          var bits := (p.length + FRAME_MAC) * 8;
          list := list[i := p.(lengthInBits := bits, transTime := bits * tau)];
        } else if p.fragmented {
          PiecesDescribed(p.length, mtu, tau);
          FormulaIsTime(p.length, mtu, tau);
          OnePiece(p.lastChunk, tau);
          var lastChunk := (p.lastChunk + FRAME_MAC) * 8 * tau;
          list := list[i := p.(
            lastChunkTime := lastChunk, transTime := ((mtu + FRAME_MAC) * 8 * (p.number - 1) * tau) + lastChunk)];
        } else {
          var bits := (p.length + FRAME_MAC) * 8;
          list := list[i := p.(lengthInBits := bits, transTime := bits * tau)];
        }
      }
    }

    static lemma OnePiece(length: int, tau: int)
      ensures TimeOf([length], tau) == (length + FRAME_MAC) * 8 * tau
    {
      assert TimeOf([length], tau) == (length + FRAME_MAC) * 8 * tau + TimeOf([], tau);
    }

    /** Splitting and timing a list of fresh payloads: large ones take the time of their pieces, unless
        they are ST traffic. */
    method SplitAndTime()
      requires Valid() && forall i :: 0 <= i < |list| ==> Fits(list[i]) && !list[i].fragmented
      modifies this`list
      ensures Valid() && |list| == |old(list)|
      ensures forall i :: 0 <= i < |list| ==>
        var p := old(list)[i];
        list[i].transTime ==
          TimeOf(if p.length > SPLIT_ABOVE && !p.priority.ST? then Pieces(p.length, mtu) else [p.length], tau)
    {
      Defragmentation();
      ExtractTransTime();
    }
  }
}
