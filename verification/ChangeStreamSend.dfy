/**
 The sending side of a change stream: a record's long cell values are cut into pieces of at most
 `limit` bytes, a message ends after each piece, and the section lists the record whole exactly
 when none of its values is over the limit.
 */
module ChangeStreamSend {
  import opened ChangeStream
  import opened Options

  const MAX_CHUNK_BYTES := 1048576

  // ---- Cutting values ----

  function Min(a: nat, b: nat): nat { if a < b then a else b }

  function Piece(m: Mutation, limit: nat, offset: nat): Chunk
    requires m.SetCell? && offset <= |m.value|
  {
    Chunk(true, offset, m.(value := m.value[offset..Min(offset + limit, |m.value|)]))
  }

  /** The pieces of a value from an offset on. */
  function PiecesFrom(m: Mutation, limit: nat, offset: nat): seq<Chunk>
    requires m.SetCell? && limit > 0
    decreases |m.value| - offset
  {
    if offset >= |m.value| then [] else [Piece(m, limit, offset)] + PiecesFrom(m, limit, offset + limit)
  }

  predicate Fits(m: Mutation, limit: nat) {
    m.SetCell? ==> |m.value| <= limit
  }

  function Cut(m: Mutation, limit: nat): seq<Chunk>
    requires limit > 0
  {
    if Fits(m, limit) then [Chunk(false, 0, m)] else PiecesFrom(m, limit, 0)
  }

  function CutAll(ms: seq<Mutation>, limit: nat): seq<seq<Chunk>>
    requires limit > 0
  {
    seq(|ms|, i requires 0 <= i < |ms| => Cut(ms[i], limit))
  }

  // ---- Grouping into messages ----

  /** The groups of the chunks, with some already taken into the group under way: a group ends after
      a piece, and at the end of the chunks. */
  function Groups(cur: seq<Chunk>, chunks: seq<Chunk>): seq<seq<Chunk>>
    decreases |chunks|
  {
    if chunks == [] then (if cur == [] then [] else [cur])
    else if chunks[0].piece then [cur + [chunks[0]]] + Groups([], chunks[1..])
    else Groups(cur + [chunks[0]], chunks[1..])
  }

  /** The groups sent: at least one, be it empty. */
  function Sending(chunks: seq<Chunk>): (groups: seq<seq<Chunk>>)
    ensures groups != []
  {
    if Groups([], chunks) == [] then [[]] else Groups([], chunks)
  }

  /** Only the first message names the row and the commit; only the last is done. */
  function MessageOf(r: Record, groups: seq<seq<Chunk>>, i: nat): Message
    requires i < |groups|
  {
    DataChange(if i == 0 then r.row else "", if i == 0 then r.commit else 0, groups[i], i == |groups| - 1)
  }

  function MessagesOf(r: Record, groups: seq<seq<Chunk>>): seq<Message> {
    seq(|groups|, i requires 0 <= i < |groups| => MessageOf(r, groups, i))
  }

  function SentOf(r: Record, limit: nat): Sent
    requires limit > 0
  {
    var pieces := CutAll(r.mutations, limit);
    Sent(r, pieces, MessagesOf(r, Sending(Joined(pieces))))
  }

  method DataChangeMessages(r: Record, limit: nat) returns (out: seq<Message>)
    requires limit > 0
    ensures out == SentOf(r, limit).messages
  {
    var chunks := CutValues(r.mutations, limit);
    var groups := GroupChunks(chunks);
    out := [];
    for i := 0 to |groups|
      invariant |out| == i && forall j :: 0 <= j < i ==> out[j] == MessageOf(r, groups, j)
    {
      var row, commit := "", 0;
      if i == 0 {
        row, commit := r.row, r.commit;
      }
      out := out + [DataChange(row, commit, groups[i], i == |groups| - 1)];
    }
  }

  method CutValues(ms: seq<Mutation>, limit: nat) returns (chunks: seq<Chunk>)
    requires limit > 0
    ensures chunks == Joined(CutAll(ms, limit))
  {
    hide PiecesFrom, Joined;
    chunks := [];
    ghost var all := CutAll(ms, limit);
    JoinedEmpty();
    assert all[0..] == all;
    for i := 0 to |ms|
      invariant Joined(all) == chunks + Joined(all[i..])
    {
      JoinedStep(all, i, chunks);
      if !ms[i].SetCell? || |ms[i].value| <= limit {
        chunks := chunks + [Chunk(false, 0, ms[i])];
        continue;
      }
      var pieces := CutValue(ms[i], limit);
      chunks := chunks + pieces;
    }
    assert all[|ms|..] == [];
  }

  lemma JoinedEmpty()
    ensures Joined([]) == []
  {
  }

  lemma JoinedStep(all: seq<seq<Chunk>>, i: nat, chunks: seq<Chunk>)
    requires i < |all|
    ensures chunks + Joined(all[i..]) == (chunks + all[i]) + Joined(all[i + 1..])
  {
    assert all[i..][1..] == all[i + 1..];
  }

  method CutValue(m: Mutation, limit: nat) returns (pieces: seq<Chunk>)
    requires m.SetCell? && limit > 0
    ensures pieces == PiecesFrom(m, limit, 0)
  {
    pieces := [];
    var v, off := m.value, 0;
    while off < |v|
      invariant PiecesFrom(m, limit, 0) == pieces + PiecesFrom(m, limit, off)
      decreases |v| - off
    {
      var end := Min(off + limit, |v|);
      pieces := pieces + [Chunk(true, off, m.(value := v[off..end]))];
      off := off + limit;
    }
  }

  method GroupChunks(chunks: seq<Chunk>) returns (groups: seq<seq<Chunk>>)
    ensures groups == Sending(chunks)
  {
    groups := [];
    var cur: seq<Chunk> := [];
    assert chunks[0..] == chunks;
    for i := 0 to |chunks|
      invariant Groups([], chunks) == groups + Groups(cur, chunks[i..])
    {
      assert chunks[i..][0] == chunks[i] && chunks[i..][1..] == chunks[i + 1..];
      cur := cur + [chunks[i]];
      if chunks[i].piece {
        groups := groups + [cur];
        cur := [];
      }
    }
    if |cur| > 0 || |groups| == 0 {
      groups := groups + [cur];
    }
  }

  // ---- What is sent is a cutting of the record ----

  function Carried(pieces: seq<Chunk>): string
    requires forall i :: 0 <= i < |pieces| ==> pieces[i].mutation.SetCell?
  {
    if pieces == [] then "" else pieces[0].mutation.value + Carried(pieces[1..])
  }

  /** The pieces from an offset on: the first starts there, each is a piece of the value, and all but
      the last are as long as the limit. */
  lemma {:induction false} PiecesInOrder(m: Mutation, limit: nat, offset: nat)
    requires m.SetCell? && limit > 0
    ensures var ps := PiecesFrom(m, limit, offset);
      && (offset < |m.value| ==> ps != [] && ps[0].offset == offset)
      && (forall i :: 0 <= i < |ps| ==> IsPiece(m, limit, ps[i], i == |ps| - 1))
      && (forall i :: 0 <= i < |ps| ==> ps[i].offset >= offset && (i > 0 ==> ps[i].offset > offset))
    decreases |m.value| - offset
  {
    hide IsPiece;
    if offset < |m.value| {
      PiecesInOrder(m, limit, offset + limit);
      PieceIsPiece(m, limit, offset);
      var ps, rest := PiecesFrom(m, limit, offset), PiecesFrom(m, limit, offset + limit);
      assert forall i :: 0 < i < |ps| ==> ps[i] == rest[i - 1];
    }
  }

  lemma PieceIsPiece(m: Mutation, limit: nat, offset: nat)
    requires m.SetCell? && limit > 0 && offset < |m.value|
    ensures IsPiece(m, limit, Piece(m, limit, offset), offset + limit >= |m.value|)
  {
  }

  /** Together the pieces carry the rest of the value. */
  lemma {:induction false} PiecesCarryValue(m: Mutation, limit: nat, offset: nat)
    requires m.SetCell? && limit > 0 && offset <= |m.value|
    ensures forall i :: 0 <= i < |PiecesFrom(m, limit, offset)| ==> PiecesFrom(m, limit, offset)[i].mutation.SetCell?
    ensures Carried(PiecesFrom(m, limit, offset)) == m.value[offset..]
    decreases |m.value| - offset
  {
    if offset < |m.value| {
      var end := Min(offset + limit, |m.value|);
      PiecesCarryValue(m, limit, end);
      assert PiecesFrom(m, limit, offset)[1..] == PiecesFrom(m, limit, end);
      assert m.value[offset..] == m.value[offset..end] + m.value[end..];
    }
  }

  /** A piece of m: the bytes of its value from the offset, up to the end if it is the last. */
  predicate IsPiece(m: Mutation, limit: nat, c: Chunk, last: bool)
    requires m.SetCell?
  {
    && c.piece && c.mutation.SetCell? && 0 < |c.mutation.value| <= limit
    && c.offset + |c.mutation.value| <= |m.value|
    && c.mutation == m.(value := m.value[c.offset..c.offset + |c.mutation.value|])
    && (if last then c.offset + |c.mutation.value| == |m.value| else |c.mutation.value| == limit)
  }

  lemma CutSplits(m: Mutation, limit: nat)
    requires limit > 0
    ensures Splits(m, Cut(m, limit))
    ensures Cut(m, limit)[0].mutation == m <==> Fits(m, limit)
  {
    if !Fits(m, limit) {
      PiecesInOrder(m, limit, 0);
      assert Cut(m, limit)[0] == Piece(m, limit, 0);
      assert |Cut(m, limit)[0].mutation.value| == limit;
    }
  }

  lemma {:induction false} GroupsJoin(cur: seq<Chunk>, chunks: seq<Chunk>)
    ensures Joined(Groups(cur, chunks)) == cur + chunks
    decreases |chunks|
  {
    if chunks == [] {
      assert cur != [] ==> [cur][1..] == [];
    } else {
      var c, rest := chunks[0], chunks[1..];
      assert chunks == [c] + rest;
      if c.piece {
        GroupsJoin([], rest);
        assert Groups(cur, chunks)[1..] == Groups([], rest);
      } else {
        GroupsJoin(cur + [c], rest);
      }
    }
  }

  /** Only a group's last chunk may be a piece, and every group but the last ends with one. */
  predicate EndsAtPieces(groups: seq<seq<Chunk>>) {
    && (forall i, j :: 0 <= i < |groups| && 0 <= j < |groups[i]| - 1 ==> !groups[i][j].piece)
    && (forall i :: 0 <= i < |groups| - 1 ==> groups[i] != [] && groups[i][|groups[i]| - 1].piece)
  }

  lemma {:induction false} GroupsEndAtPieces(cur: seq<Chunk>, chunks: seq<Chunk>)
    requires forall i :: 0 <= i < |cur| ==> !cur[i].piece
    ensures EndsAtPieces(Groups(cur, chunks))
    decreases |chunks|
  {
    if chunks != [] {
      var c, rest := chunks[0], chunks[1..];
      if c.piece {
        GroupsEndAtPieces([], rest);
        EndsAtPiecesStep(cur + [c], Groups([], rest));
      } else {
        GroupsEndAtPieces(cur + [c], rest);
      }
    }
  }

  lemma EndsAtPiecesStep(group: seq<Chunk>, groups: seq<seq<Chunk>>)
    requires group != [] && group[|group| - 1].piece && forall j :: 0 <= j < |group| - 1 ==> !group[j].piece
    requires EndsAtPieces(groups)
    ensures EndsAtPieces([group] + groups)
  {
    var all := [group] + groups;
    assert all[0] == group && forall i :: 0 < i < |all| ==> all[i] == groups[i - 1];
  }

  /** The messages of a record: each ends after the one piece it may hold, the first alone names the
      row and the commit time, and the last alone is done. */
  lemma MessagesEndAtPieces(r: Record, limit: nat, i: nat)
    requires limit > 0 && i < |SentOf(r, limit).messages|
    ensures var messages := SentOf(r, limit).messages;
      var m := messages[i];
      && (forall j :: 0 <= j < |m.chunks| - 1 ==> !m.chunks[j].piece)
      && (i < |messages| - 1 ==> m.chunks != [] && m.chunks[|m.chunks| - 1].piece)
      && (m.done <==> i == |messages| - 1)
      && m.row == (if i == 0 then r.row else "") && m.commit == (if i == 0 then r.commit else 0)
  {
    var chunks := Joined(SentOf(r, limit).pieces);
    GroupsEndAtPieces([], chunks);
    assert SentOf(r, limit).messages[i].chunks == Sending(chunks)[i];
  }

  lemma SendingJoins(chunks: seq<Chunk>)
    ensures Joined(Sending(chunks)) == chunks
  {
    GroupsJoin([], chunks);
    var none: seq<seq<Chunk>> := [[]];
    assert Joined(none) == [] + Joined(none[1..]);
  }

  lemma {:induction false} MessagesCarryGroups(messages: seq<Message>, groups: seq<seq<Chunk>>)
    requires |messages| == |groups|
    requires forall i :: 0 <= i < |messages| ==> messages[i].DataChange? && messages[i].chunks == groups[i]
    ensures ChunksOf(messages) == Joined(groups)
  {
    if messages != [] {
      MessagesCarryGroups(messages[1..], groups[1..]);
    }
  }

  /** What the server sends for a record is a cutting of it. */
  lemma ServerSendsWell(r: Record, limit: nat)
    requires limit > 0
    ensures WellSent(SentOf(r, limit))
  {
    hide Cut, Sending, Splits, Joined, ChunksOf;
    var s := SentOf(r, limit);
    forall i | 0 <= i < |s.pieces|
      ensures Splits(r.mutations[i], s.pieces[i])
    {
      CutSplits(r.mutations[i], limit);
    }
    var groups := Sending(Joined(s.pieces));
    SendingJoins(Joined(s.pieces));
    MessagesCarryGroups(s.messages, groups);
  }

  predicate AllFit(r: Record, limit: nat) {
    forall i :: 0 <= i < |r.mutations| ==> Fits(r.mutations[i], limit)
  }

  /** A record's item shows it whole exactly when none of its cell values is over the limit. */
  lemma ShownWholeIffFits(r: Record, limit: nat)
    requires limit > 0
    ensures WellSent(SentOf(r, limit))
    ensures ItemOf(SentOf(r, limit)) == WholeItem(r) <==> AllFit(r, limit)
  {
    hide WellSent, ItemOf, WholeItem, Cut, Fits, Sending;
    ServerSendsWell(r, limit);
    var s := SentOf(r, limit);
    CuttingShowsIffValueCut(s);
    forall i | 0 <= i < |s.pieces|
      ensures s.pieces[i] != []
      ensures s.pieces[i][0].mutation == r.mutations[i] <==> Fits(r.mutations[i], limit)
    {
      CutSplits(r.mutations[i], limit);
    }
  }

  function SendAll(records: seq<Record>, limit: nat): seq<Sent>
    requires limit > 0
  {
    seq(|records|, i requires 0 <= i < |records| => SentOf(records[i], limit))
  }

  /** From the server's records to the listing: with heartbeats anywhere, the messages sent for the
      records give one item a record, in order, and an item is the whole record exactly when none
      of its cell values is over the limit. */
  lemma StreamShowsWholeIffFits(stream: seq<Message>, records: seq<Record>, limit: nat, i: nat)
    requires limit > 0 && i < |records|
    requires DataOnly(stream) == Wire(SendAll(records, limit))
    ensures |Items(None, stream)| == |records|
    ensures Items(None, stream)[i] == WholeItem(records[i]) <==> AllFit(records[i], limit)
  {
    hide WellSent, Wire, DataOnly, Items, SentOf, AllFit;
    var sent := SendAll(records, limit);
    forall j | 0 <= j < |sent|
      ensures WellSent(sent[j])
    {
      ServerSendsWell(records[j], limit);
    }
    assert Wire(sent) + [] == Wire(sent);
    ReassemblyIsFaithful(stream, sent, []);
    ShownWholeIffFits(records[i], limit);
  }

  /** A cell value one byte over the server's limit is listed without its last byte. */
  lemma LongValueIsListedCut(row: string, commit: int)
    ensures var value := seq(MAX_CHUNK_BYTES + 1, _ => 'x');
      var s := SentOf(Record(row, commit, [SetCell("f", "c", value)]), MAX_CHUNK_BYTES);
      && WellSent(s) && ItemOf(s) != WholeItem(s.record)
      && ItemOf(s).mutations == [Describe(SetCell("f", "c", value[..MAX_CHUNK_BYTES]))]
  {
    hide Describe, WellSent, Sending, WholeItem;
    var value := seq(MAX_CHUNK_BYTES + 1, _ => 'x');
    var m := SetCell("f", "c", value);
    var r := Record(row, commit, [m]);
    assert !Fits(r.mutations[0], MAX_CHUNK_BYTES);
    ShownWholeIffFits(r, MAX_CHUNK_BYTES);
    assert SentOf(r, MAX_CHUNK_BYTES).pieces[0][0] == Piece(m, MAX_CHUNK_BYTES, 0);
    assert value[0..MAX_CHUNK_BYTES] == value[..MAX_CHUNK_BYTES];
  }
}
