/** Sending the rest of an upload piece by piece, over one connection. */
module UploadSequential {
  import opened Wrappers

  const CHUNK_BYTES: nat := 0x10_0000

  datatype Piece<T> = Piece(offset: int, bytes: seq<T>)

  datatype Outcome = Completed | SourceEnded | RequestFailed | InvalidReply

  function Joined<T>(pieces: seq<Piece<T>>): seq<T> {
    if pieces == [] then [] else Joined(pieces[..|pieces| - 1]) + pieces[|pieces| - 1].bytes
  }

  /** Each piece starts where the ones before it end. */
  ghost predicate Contiguous<T>(pieces: seq<Piece<T>>, start: int) {
    forall i :: 0 <= i < |pieces| ==>
      pieces[i].offset == start + |Joined(pieces[..i])| && 0 < |pieces[i].bytes| <= CHUNK_BYTES
  }

  lemma ContiguousAppend<T>(pieces: seq<Piece<T>>, start: int, p: Piece<T>)
    requires Contiguous(pieces, start) && p.offset == start + |Joined(pieces)| && 0 < |p.bytes| <= CHUNK_BYTES
    ensures Contiguous(pieces + [p], start) && Joined(pieces + [p]) == Joined(pieces) + p.bytes
  {
    var all := pieces + [p];
    assert all[..|pieces|] == pieces;
    assert forall i :: 0 <= i < |pieces| ==> all[..i] == pieces[..i];
  }

  lemma SliceAppend<T>(source: seq<T>, start: nat, offset: nat, read: nat)
    requires start <= offset && offset + read <= |source|
    ensures source[start..offset] + source[offset..offset + read] == source[start..offset + read]
  {}

  lemma NothingSent<T>(start: int)
    ensures Contiguous<T>([], start) && Joined<T>([]) == []
  {}

  /** How much of the rest is read and sent at once, if the source is long enough. */
  function Portion(offset: int, size: int): int {
    if size - offset > CHUNK_BYTES then CHUNK_BYTES else size - offset
  }

  /** From this offset on the engine answers every piece with the offset behind it. */
  predicate Confirmed(size: int, reply: (int, nat) -> Option<int>, offset: int)
    decreases size - offset
  {
    offset >= size ||
    (reply(offset, Portion(offset, size)) == Some(offset + Portion(offset, size)) &&
     Confirmed(size, reply, offset + Portion(offset, size)))
  }

  /** The loop of sftpUploadFile. `source` is what the local file holds while it is read,
      `size` the size that was planned; `reply` is the offset the engine answers, or None
      when the request fails. Whatever happens, the bytes sent are the next bytes of the
      source at their own offsets. It completes, with the whole planned rest sent, exactly
      when the start is inside the file, the source is long enough and every piece is
      confirmed. */
  method SendRest<T>(source: seq<T>, start: int, size: int, reply: (int, nat) -> Option<int>)
    returns (sent: seq<Piece<T>>, outcome: Outcome)
    ensures Contiguous(sent, start)
    ensures sent != [] ==>
            && 0 <= start && start + |Joined(sent)| <= |source|
            && Joined(sent) == source[start..start + |Joined(sent)|]
    ensures outcome == Completed <==>
            0 <= start <= size && (start == size || size <= |source|) && Confirmed(size, reply, start)
    ensures outcome == Completed ==> start + |Joined(sent)| == size
    ensures outcome == SourceEnded ==>
            |source| < size && start + |Joined(sent)| == (if start < |source| then |source| else start)
    ensures outcome == InvalidReply && sent == [] ==> !(0 <= start <= size)
  {
    hide Contiguous, Joined;
    sent := [];
    NothingSent<T>(start);
    if start < 0 || start > size {
      return sent, InvalidReply;
    }
    var offset := start;
    while offset < size
      invariant start <= offset <= size && offset == start + |Joined(sent)|
      invariant Contiguous(sent, start)
      invariant sent == [] <==> offset == start
      invariant offset == start || offset <= |source|
      invariant offset <= |source| ==> Joined(sent) == source[start..offset]
      invariant Confirmed(size, reply, start) && size <= |source| ==> Confirmed(size, reply, offset)
      invariant start < size <= |source| && Confirmed(size, reply, offset) ==> Confirmed(size, reply, start)
      decreases size - offset
    {
      var limit := if size - offset > CHUNK_BYTES then CHUNK_BYTES else size - offset;
      var available := if offset < |source| then |source| - offset else 0;
      var read := if available < limit then available else limit;
      if read == 0 {
        return sent, SourceEnded;
      }
      var piece := Piece(offset, source[offset..offset + read]);
      ContiguousAppend(sent, start, piece);
      SliceAppend(source, start, offset, read);
      sent := sent + [piece];
      match reply(offset, read) {
        case None => return sent, RequestFailed;
        case Some(answer) =>
          if answer != offset + read {
            return sent, InvalidReply;
          }
          offset := answer;
      }
    }
    outcome := Completed;
  }
}
