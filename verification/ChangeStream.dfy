/**
 A table's change stream read back into records. A record is sent in one or more messages, and a
 mutation with a long value in several chunks; the section lists one item a record.
 */
module ChangeStream {
  import opened Options

  const CHANGE_STREAM_SHOWN := 100

  datatype Mutation =
    | SetCell(family: string, column: string, value: string)
    | DeleteFromColumn(family: string, column: string)
    | DeleteFromFamily(family: string)
    | AddToCell(family: string)
    | MergeToCell(family: string)

  function Describe(m: Mutation): string {
    match m
    case SetCell(f, c, v) => "SetCell " + f + ":" + c + " = " + v
    case DeleteFromColumn(f, c) => "DeleteFromColumn " + f + ":" + c
    case DeleteFromFamily(f) => "DeleteFromFamily " + f
    case AddToCell(f) => "AddToCell " + f
    case MergeToCell(f) => "MergeToCell " + f
  }

  /** A mutation, or one piece of one; offset is how much of its value earlier pieces carried. */
  datatype Chunk = Chunk(piece: bool, offset: nat, mutation: Mutation)

  datatype Message =
    | Heartbeat
    | DataChange(row: string, commit: int, chunks: seq<Chunk>, done: bool)

  datatype Item = Item(row: string, commit: int, mutations: seq<string>)

  /** The descriptions a list of chunks adds: one for each chunk that begins a mutation. */
  function Begun(chunks: seq<Chunk>): seq<string> {
    if chunks == [] then []
    else (if chunks[0].piece && chunks[0].offset > 0 then [] else [Describe(chunks[0].mutation)]) + Begun(chunks[1..])
  }

  /** The item under way once a message's chunks are added. */
  function Extend(cur: Option<Item>, m: Message): Item
    requires m.DataChange?
  {
    if cur.None? then Item(m.row, m.commit, Begun(m.chunks))
    else cur.value.(mutations := cur.value.mutations + Begun(m.chunks))
  }

  /** The items completed by the messages, starting with an item under way or none. */
  function Items(cur: Option<Item>, messages: seq<Message>): seq<Item>
    decreases |messages|
  {
    if messages == [] then []
    else if messages[0].Heartbeat? then Items(cur, messages[1..])
    else
      var item := Extend(cur, messages[0]);
      if messages[0].done then [item] + Items(None, messages[1..]) else Items(Some(item), messages[1..])
  }

  lemma {:induction false} BegunAppend(a: seq<Chunk>, b: seq<Chunk>)
    ensures Begun(a + b) == Begun(a) + Begun(b)
  {
    hide Describe;
    if a == [] {
      assert a + b == b;
    } else {
      assert (a + b)[1..] == a[1..] + b;
      BegunAppend(a[1..], b);
    }
  }

  method ReadItems(messages: seq<Message>) returns (items: seq<Item>)
    ensures items == Items(None, messages)
  {
    items := [];
    var cur: Option<Item> := None;
    assert messages[0..] == messages;
    for i := 0 to |messages|
      invariant Items(None, messages) == items + Items(cur, messages[i..])
    {
      assert messages[i..][0] == messages[i] && messages[i..][1..] == messages[i + 1..];
      if messages[i].Heartbeat? {
        continue;
      }
      var begun := ReadChunks(messages[i].chunks);
      if cur.None? {
        cur := Some(Item(messages[i].row, messages[i].commit, begun));
      } else {
        cur := Some(cur.value.(mutations := cur.value.mutations + begun));
      }
      if messages[i].done {
        items := items + [cur.value];
        cur := None;
      }
    }
  }

  lemma BegunStep(begun: seq<string>, chunks: seq<Chunk>, i: nat)
    requires i < |chunks|
    ensures begun + Begun(chunks[i..]) ==
      (if chunks[i].piece && chunks[i].offset > 0 then begun else begun + [Describe(chunks[i].mutation)]) +
      Begun(chunks[i + 1..])
  {
    hide Describe;
    assert chunks[i..][1..] == chunks[i + 1..];
  }

  method ReadChunks(chunks: seq<Chunk>) returns (begun: seq<string>)
    ensures begun == Begun(chunks)
  {
    begun := [];
    assert chunks[0..] == chunks;
    for i := 0 to |chunks|
      invariant Begun(chunks) == begun + Begun(chunks[i..])
    {
      hide Begun, Describe;
      BegunStep(begun, chunks, i);
      if chunks[i].piece && chunks[i].offset > 0 {
        continue;
      }
      begun := begun + [Describe(chunks[i].mutation)];
    }
  }

  method Newest(items: seq<Item>) returns (shown: seq<Item>)
    ensures |shown| == if |items| < CHANGE_STREAM_SHOWN then |items| else CHANGE_STREAM_SHOWN
    ensures forall k :: 0 <= k < |shown| ==> shown[k] == items[|items| - 1 - k]
  {
    shown := [];
    var i := |items|;
    while i > 0 && |shown| < CHANGE_STREAM_SHOWN
      invariant 0 <= i <= |items| && |shown| == |items| - i <= CHANGE_STREAM_SHOWN
      invariant forall k :: 0 <= k < |shown| ==> shown[k] == items[|items| - 1 - k]
    {
      i := i - 1;
      shown := shown + [items[i]];
    }
  }

  // ---- Every way of cutting records into messages ----

  datatype Record = Record(row: string, commit: int, mutations: seq<Mutation>)

  /** A record on the wire: the pieces of each mutation, and the messages the pieces are sent in. */
  datatype Sent = Sent(record: Record, pieces: seq<seq<Chunk>>, messages: seq<Message>)

  /** The first piece begins m, with all of its value or a prefix; the others continue it. */
  predicate Splits(m: Mutation, pieces: seq<Chunk>) {
    && pieces != [] && pieces[0].offset == 0
    && (forall i :: 0 < i < |pieces| ==> pieces[i].piece && pieces[i].offset > 0)
    && (if m.SetCell? then
          pieces[0].mutation.SetCell? && pieces[0].mutation.family == m.family &&
          pieces[0].mutation.column == m.column && pieces[0].mutation.value <= m.value
        else pieces[0].mutation == m)
  }

  function Joined(pieces: seq<seq<Chunk>>): seq<Chunk> {
    if pieces == [] then [] else pieces[0] + Joined(pieces[1..])
  }

  function ChunksOf(messages: seq<Message>): seq<Chunk>
    requires forall i :: 0 <= i < |messages| ==> messages[i].DataChange?
  {
    if messages == [] then [] else messages[0].chunks + ChunksOf(messages[1..])
  }

  /** All data, and only the last message is marked done. */
  predicate DoneAtEnd(messages: seq<Message>) {
    messages != [] && forall i :: 0 <= i < |messages| ==>
      messages[i].DataChange? && messages[i].done == (i == |messages| - 1)
  }

  predicate WellSent(s: Sent) {
    && |s.pieces| == |s.record.mutations|
    && (forall i :: 0 <= i < |s.pieces| ==> Splits(s.record.mutations[i], s.pieces[i]))
    && DoneAtEnd(s.messages)
    && ChunksOf(s.messages) == Joined(s.pieces)
    && s.messages[0].row == s.record.row && s.messages[0].commit == s.record.commit
  }

  /** The item listed for a record: its row and commit time, and one description a mutation. */
  function ItemOf(s: Sent): Item
    requires WellSent(s)
  {
    Item(s.record.row, s.record.commit,
         seq(|s.pieces|, i requires 0 <= i < |s.pieces| => Describe(s.pieces[i][0].mutation)))
  }

  function DataOnly(messages: seq<Message>): seq<Message> {
    if messages == [] then []
    else (if messages[0].Heartbeat? then [] else [messages[0]]) + DataOnly(messages[1..])
  }

  function Wire(sent: seq<Sent>): seq<Message> {
    if sent == [] then [] else sent[0].messages + Wire(sent[1..])
  }

  lemma {:induction false} HeartbeatsAreSkipped(cur: Option<Item>, messages: seq<Message>)
    ensures Items(cur, messages) == Items(cur, DataOnly(messages))
    decreases |messages|
  {
    if messages != [] {
      var rest := messages[1..];
      if messages[0].Heartbeat? {
        assert [] + DataOnly(rest) == DataOnly(rest);
        HeartbeatsAreSkipped(cur, rest);
      } else {
        var item := Extend(cur, messages[0]);
        assert DataOnly(messages)[1..] == DataOnly(rest);
        HeartbeatsAreSkipped(if messages[0].done then None else Some(item), rest);
      }
    }
  }

  lemma {:induction false} PiecesBegunOnce(pieces: seq<Chunk>)
    requires pieces != [] && pieces[0].offset == 0
    requires forall i :: 0 < i < |pieces| ==> pieces[i].piece && pieces[i].offset > 0
    ensures Begun(pieces) == [Describe(pieces[0].mutation)]
  {
    ContinuationsAddNothing(pieces[1..]);
  }

  lemma {:induction false} ContinuationsAddNothing(pieces: seq<Chunk>)
    requires forall i :: 0 <= i < |pieces| ==> pieces[i].piece && pieces[i].offset > 0
    ensures Begun(pieces) == []
  {
    if pieces != [] {
      ContinuationsAddNothing(pieces[1..]);
    }
  }

  lemma {:induction false} JoinedBegun(pieces: seq<seq<Chunk>>, ms: seq<Mutation>)
    requires |pieces| == |ms| && forall i :: 0 <= i < |pieces| ==> Splits(ms[i], pieces[i])
    ensures |Begun(Joined(pieces))| == |pieces|
    ensures forall i :: 0 <= i < |pieces| ==> pieces[i] != [] && Begun(Joined(pieces))[i] == Describe(pieces[i][0].mutation)
  {
    if pieces != [] {
      BegunAppend(pieces[0], Joined(pieces[1..]));
      PiecesBegunOnce(pieces[0]);
      JoinedBegun(pieces[1..], ms[1..]);
    }
  }

  /** The item under way once all the chunks of some messages are added. */
  function Whole(cur: Option<Item>, messages: seq<Message>): Item
    requires messages != [] && forall i :: 0 <= i < |messages| ==> messages[i].DataChange?
  {
    if cur.None? then Item(messages[0].row, messages[0].commit, Begun(ChunksOf(messages)))
    else cur.value.(mutations := cur.value.mutations + Begun(ChunksOf(messages)))
  }

  lemma WholeOfOne(cur: Option<Item>, m: Message)
    requires m.DataChange?
    ensures Whole(cur, [m]) == Extend(cur, m)
  {
    assert ChunksOf([m]) == m.chunks;
  }

  lemma WholeOfMore(cur: Option<Item>, m: Message, tail: seq<Message>)
    requires m.DataChange? && tail != [] && forall i :: 0 <= i < |tail| ==> tail[i].DataChange?
    ensures Whole(cur, [m] + tail) == Whole(Some(Extend(cur, m)), tail)
  {
    hide Begun;
    assert ([m] + tail)[1..] == tail;
    assert ChunksOf([m] + tail) == m.chunks + ChunksOf(tail);
    BegunAppend(m.chunks, ChunksOf(tail));
    if cur.Some? {
      assert cur.value.mutations + Begun(m.chunks) + Begun(ChunksOf(tail)) ==
        cur.value.mutations + (Begun(m.chunks) + Begun(ChunksOf(tail)));
    }
  }

  lemma ItemsStep(cur: Option<Item>, m: Message, rest: seq<Message>)
    requires m.DataChange?
    ensures Items(cur, [m] + rest) ==
      if m.done then [Extend(cur, m)] + Items(None, rest) else Items(Some(Extend(cur, m)), rest)
  {
    assert ([m] + rest)[1..] == rest;
  }

  /** A record's messages complete one item, with the chunks of all of them. */
  lemma {:induction false} RecordCompletes(cur: Option<Item>, messages: seq<Message>, rest: seq<Message>)
    requires DoneAtEnd(messages)
    ensures Items(cur, messages + rest) == [Whole(cur, messages)] + Items(None, rest)
    decreases |messages|
  {
    hide Items, Whole, Extend;
    var m, tail := messages[0], messages[1..];
    assert messages == [m] + tail && messages + rest == [m] + (tail + rest);
    ItemsStep(cur, m, tail + rest);
    if tail == [] {
      assert tail + rest == rest && messages == [m];
      WholeOfOne(cur, m);
    } else {
      RecordCompletes(Some(Extend(cur, m)), tail, rest);
      WholeOfMore(cur, m, tail);
    }
  }

  /** Nothing is listed for a record that never completes. */
  lemma {:induction false} UnfinishedIsDropped(cur: Option<Item>, messages: seq<Message>)
    requires forall i :: 0 <= i < |messages| ==> messages[i].DataChange? && !messages[i].done
    ensures Items(cur, messages) == []
    decreases |messages|
  {
    if messages != [] {
      UnfinishedIsDropped(Some(Extend(cur, messages[0])), messages[1..]);
    }
  }

  lemma {:induction false} WireReadBack(sent: seq<Sent>, unfinished: seq<Message>)
    requires forall i :: 0 <= i < |sent| ==> WellSent(sent[i])
    requires forall i :: 0 <= i < |unfinished| ==> unfinished[i].DataChange? && !unfinished[i].done
    ensures |Items(None, Wire(sent) + unfinished)| == |sent|
    ensures forall i :: 0 <= i < |sent| ==> Items(None, Wire(sent) + unfinished)[i] == ItemOf(sent[i])
  {
    if sent == [] {
      assert Wire(sent) + unfinished == unfinished;
      UnfinishedIsDropped(None, unfinished);
    } else {
      var s := sent[0];
      assert Wire(sent) + unfinished == s.messages + (Wire(sent[1..]) + unfinished);
      RecordCompletes(None, s.messages, Wire(sent[1..]) + unfinished);
      JoinedBegun(s.pieces, s.record.mutations);
      assert Begun(Joined(s.pieces)) == ItemOf(s).mutations;
      WireReadBack(sent[1..], unfinished);
    }
  }

  /** However records are cut into messages and chunks, with heartbeats anywhere, the section lists
      one item a completed record, in order, and drops only a record left unfinished. */
  lemma ReassemblyIsFaithful(stream: seq<Message>, sent: seq<Sent>, unfinished: seq<Message>)
    requires forall i :: 0 <= i < |sent| ==> WellSent(sent[i])
    requires forall i :: 0 <= i < |unfinished| ==> unfinished[i].DataChange? && !unfinished[i].done
    requires DataOnly(stream) == Wire(sent) + unfinished
    ensures |Items(None, stream)| == |sent|
    ensures forall i :: 0 <= i < |sent| ==> Items(None, stream)[i] == ItemOf(sent[i])
  {
    HeartbeatsAreSkipped(None, stream);
    WireReadBack(sent, unfinished);
  }

  /** The item as it would be with no mutation split. */
  function WholeItem(r: Record): Item {
    Item(r.row, r.commit, seq(|r.mutations|, i requires 0 <= i < |r.mutations| => Describe(r.mutations[i])))
  }

  /** Every first piece of a cell's value carries all of it. */
  predicate FirstPiecesWhole(s: Sent)
    requires WellSent(s)
  {
    forall i :: 0 <= i < |s.pieces| ==> s.pieces[i][0].mutation == s.record.mutations[i]
  }

  /** Where c first is, or the length. */
  function FirstAt(s: string, c: char): nat {
    if s == "" || s[0] == c then 0 else 1 + FirstAt(s[1..], c)
  }

  lemma {:induction false} FirstAfter(a: string, c: char, x: string)
    requires c !in a
    ensures FirstAt(a + [c] + x, c) == |a|
  {
    if a != "" {
      assert a[0] in a;
      assert (a + [c] + x)[1..] == a[1..] + [c] + x;
      FirstAfter(a[1..], c, x);
    }
  }

  /** A text is cut in one way at the first c. */
  lemma CutAtFirst(a: string, b: string, c: char, x: string, y: string)
    requires c !in a && c !in b && a + [c] + x == b + [c] + y
    ensures a == b && x == y
  {
    var s := a + [c] + x;
    FirstAfter(a, c, x);
    FirstAfter(b, c, y);
    assert a == s[..|a|] && b == (b + [c] + y)[..|b|];
    assert x == s[|a| + 1..] && y == (b + [c] + y)[|b| + 1..];
  }

  lemma DescribeTellsKind(m: Mutation, n: Mutation)
    requires Describe(m) == Describe(n)
    ensures m.SetCell? == n.SetCell? && m.DeleteFromColumn? == n.DeleteFromColumn?
    ensures m.DeleteFromFamily? == n.DeleteFromFamily? && m.AddToCell? == n.AddToCell?
  {
    DescribeStarts(m);
    DescribeStarts(n);
  }

  lemma DescribeStarts(m: Mutation)
    ensures |Describe(m)| > 6
    ensures Describe(m)[0] ==
      match m case SetCell(_, _, _) => 'S' case AddToCell(_) => 'A' case MergeToCell(_) => 'M' case _ => 'D'
    ensures m.DeleteFromColumn? ==> |Describe(m)| > 10 && Describe(m)[10] == 'C'
    ensures m.DeleteFromFamily? ==> |Describe(m)| > 10 && Describe(m)[10] == 'F'
  {
  }

  /** A description tells the kind of a mutation and its family, for families without a colon, and
      the column where there is one, for columns without an equals sign. */
  lemma DescribeTellsCell(m: Mutation, n: Mutation)
    requires Describe(m) == Describe(n) && ':' !in m.family && ':' !in n.family
    requires m.SetCell? && n.SetCell? ==> '=' !in m.column && '=' !in n.column
    ensures m == n
  {
    hide Describe;
    DescribeTellsKind(m, n);
    match m
    case SetCell(f, c, v) => SetCellTells(m, n);
    case DeleteFromColumn(f, c) => DeleteTells(m, n);
    case _ => FamilyTells(m, n);
  }

  lemma FamilyTells(m: Mutation, n: Mutation)
    requires !m.SetCell? && !m.DeleteFromColumn? && Describe(m) == Describe(n)
    requires !n.SetCell? && !n.DeleteFromColumn?
    requires m.DeleteFromFamily? == n.DeleteFromFamily? && m.AddToCell? == n.AddToCell?
    ensures m == n
  {
    var k := if m.DeleteFromFamily? then 17 else if m.AddToCell? then 10 else 12;
    assert Describe(m)[k..] == m.family && Describe(n)[k..] == n.family;
  }

  lemma DeleteTells(m: Mutation, n: Mutation)
    requires m.DeleteFromColumn? && n.DeleteFromColumn? && Describe(m) == Describe(n)
    requires ':' !in m.family && ':' !in n.family
    ensures m == n
  {
    var kind := "DeleteFromColumn ";
    assert Describe(m) == kind + (m.family + [':'] + m.column) && Describe(n) == kind + (n.family + [':'] + n.column);
    assert Describe(m)[|kind|..] == m.family + [':'] + m.column && Describe(n)[|kind|..] == n.family + [':'] + n.column;
    CutAtFirst(m.family, n.family, ':', m.column, n.column);
  }

  lemma SetCellText(m: Mutation)
    requires m.SetCell?
    ensures Describe(m)[8..] == m.family + [':'] + (m.column + " " + ['='] + (" " + m.value))
  {
    assert m.column + " " + ['='] + (" " + m.value) == m.column + " = " + m.value;
    assert Describe(m) == "SetCell " + (m.family + [':'] + (m.column + " = " + m.value));
  }

  lemma SetCellTells(m: Mutation, n: Mutation)
    requires m.SetCell? && n.SetCell? && Describe(m) == Describe(n)
    requires ':' !in m.family && ':' !in n.family && '=' !in m.column && '=' !in n.column
    ensures m == n
  {
    hide Describe;
    var c, d, v, w := m.column + " ", n.column + " ", " " + m.value, " " + n.value;
    SetCellText(m);
    SetCellText(n);
    CutAtFirst(m.family, n.family, ':', c + ['='] + v, d + ['='] + w);
    CutAtFirst(c, d, '=', v, w);
    assert m.column == c[..|c| - 1] && n.column == d[..|d| - 1] && m.value == v[1..] && n.value == w[1..];
  }

  lemma DescribeTells(m: Mutation, piece: Mutation)
    requires m.SetCell? && piece.SetCell? && piece.family == m.family && piece.column == m.column
    ensures Describe(piece) == Describe(m) ==> piece == m
  {
    var head := "SetCell " + m.family + ":" + m.column + " = ";
    assert Describe(m)[|head|..] == m.value && Describe(piece)[|head|..] == piece.value;
  }

  /** What is listed does not depend on the cutting exactly when no cell's value is cut: of a value
      sent in several chunks only the first chunk's part is shown. */
  lemma CuttingShowsIffValueCut(s: Sent)
    requires WellSent(s)
    ensures ItemOf(s) == WholeItem(s.record) <==> FirstPiecesWhole(s)
  {
    var a, b := ItemOf(s).mutations, WholeItem(s.record).mutations;
    forall i | 0 <= i < |s.pieces|
      ensures a[i] == b[i] <==> s.pieces[i][0].mutation == s.record.mutations[i]
    {
      if s.record.mutations[i].SetCell? {
        DescribeTells(s.record.mutations[i], s.pieces[i][0].mutation);
      }
    }
  }
}
