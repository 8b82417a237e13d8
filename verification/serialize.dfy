/** The depth-first flag stream of src/ftt.c: ftt_cell_write, and
    cell_read / oct_read behind ftt_cell_read.

    Each cell is one record holding its flags; the per-cell user payload
    (the write/read hooks) is not modelled, so a record is the child index
    (flags & FTT_FLAG_ID), the destroyed bit and the leaf bit. */
module Serialize {
  import opened Wrappers
  import opened Directions
  import opened Tree

  datatype FlagWord = FlagWord(id: nat, destroyed: bool, leaf: bool)

  datatype ReadError =
    | ExpectingFlags        // "expecting an integer (flags)": the stream ended
    | IdMismatch(expected: nat, found: nat)

  /** ftt_cell_write of the slot holding child `id`, at the given level.
      The leaf bit is set on a leaf, on a cell at level max_depth and on a
      destroyed cell (it has no children); children follow, in index order,
      only when the bit is clear. */
  function WriteSlot(o: Option<Cell>, id: nat, level: nat, maxDepth: int): (r: seq<FlagWord>)
    ensures |r| >= 1 && r[0].id == id
    ensures r[0].destroyed <==> o.None?
    ensures r[0].leaf <==> (o.None? || o.value.Leaf? || level == maxDepth)
    decreases o
  {
    match o
    case None => [FlagWord(id, true, true)]
    case Some(Leaf) => [FlagWord(id, false, true)]
    case Some(Node(a, b, x, d)) =>
      if level == maxDepth then [FlagWord(id, false, true)]
      else
        [FlagWord(id, false, false)] + WriteSlot(a, 0, level + 1, maxDepth)
        + WriteSlot(b, 1, level + 1, maxDepth) + WriteSlot(x, 2, level + 1, maxDepth)
        + WriteSlot(d, 3, level + 1, maxDepth)
  }

  /** ftt_cell_write from the root (child index 0, level 0). */
  function Write(t: Cell, maxDepth: int): seq<FlagWord>
  {
    WriteSlot(Some(t), 0, 0, maxDepth)
  }

  /** cell_read of the cell whose child index is `id`: the record must
      exist and carry that index; a destroyed record ends there, a flagged
      leaf becomes a leaf (its leaf bit cleared), anything else reads an
      oct of four children.  Returns the slot and the unread rest. */
  function ReadSlot(s: seq<FlagWord>, id: nat): (r: Result<(Option<Cell>, seq<FlagWord>), ReadError>)
    ensures r.Ok? ==> |s| > 0 && s[0].id == id && |r.value.1| < |s|
    ensures r.Ok? ==> (r.value.0.None? <==> s[0].destroyed)
    decreases |s|, 0
  {
    if s == [] then Err(ExpectingFlags)
    else if s[0].id != id then Err(IdMismatch(id, s[0].id))
    else if s[0].destroyed then Ok((None, s[1..]))
    else if s[0].leaf then Ok((Some(Leaf), s[1..]))
    else match ReadKids(s[1..], NewOct, 0)
      case Err(e) => Err(e)
      case Ok((c, rest)) => Ok((Some(c), rest))
  }

  /** oct_read: children n..3 of the oct, each with its own index. */
  function ReadKids(s: seq<FlagWord>, node: Cell, n: nat): (r: Result<(Cell, seq<FlagWord>), ReadError>)
    requires node.Node? && n <= 4
    ensures r.Ok? ==> r.value.0.Node? && |r.value.1| <= |s|
    decreases |s|, 5 - n
  {
    if n == 4 then Ok((node, s))
    else match ReadSlot(s, n)
      case Err(e) => Err(e)
      case Ok((o, rest)) => ReadKids(rest, WithSlot(node, n, o), n + 1)
  }

  /** ftt_cell_read: the root record carries index 0. */
  function Read(s: seq<FlagWord>): Result<(Option<Cell>, seq<FlagWord>), ReadError>
  {
    ReadSlot(s, 0)
  }

  /** The tree cut at max_depth: a cell at that level loses its children. */
  function TruncateSlot(o: Option<Cell>, level: nat, maxDepth: int): (r: Option<Cell>)
    ensures r.Some? <==> o.Some?
    decreases o
  {
    match o
    case None => None
    case Some(Leaf) => Some(Leaf)
    case Some(Node(a, b, x, d)) =>
      if level == maxDepth then Some(Leaf)
      else Some(Node(TruncateSlot(a, level + 1, maxDepth), TruncateSlot(b, level + 1, maxDepth),
                     TruncateSlot(x, level + 1, maxDepth), TruncateSlot(d, level + 1, maxDepth)))
  }

  /** The truncated tree keeps exactly the cells no deeper than max_depth
      (all cells when max_depth is below the level), and its cells at
      level max_depth are leaves. */
  lemma {:induction false} TruncateKeeps(o: Option<Cell>, level: nat, maxDepth: int, y: Path)
    requires o.Some?
    ensures var r := TruncateSlot(o, level, maxDepth).value;
      (maxDepth < level || level + |y| <= maxDepth ==>
        (Live(r, y) <==> Live(o.value, y)) &&
        (level + |y| < maxDepth || maxDepth < level ==> (IsLeafAt(r, y) <==> IsLeafAt(o.value, y)))) &&
      (maxDepth >= level && level + |y| == maxDepth && Live(r, y) ==> IsLeafAt(r, y)) &&
      (maxDepth >= level && level + |y| > maxDepth ==> !Live(r, y))
    decreases o
  {
    var c := o.value;
    if y != [] && c.Node? && level != maxDepth {
      var k := Slot(c, y[0]);
      var rk := Slot(TruncateSlot(o, level, maxDepth).value, y[0]);
      assert rk == TruncateSlot(k, level + 1, maxDepth);
      if k.Some? {
        TruncateKeeps(k, level + 1, maxDepth, y[1..]);
      }
    }
  }

  /** Reading back what ftt_cell_write wrote rebuilds the same shape,
      destroyed slots included, cut at max_depth, and leaves the rest of
      the stream unread. */
  lemma {:induction false} RoundTripSlot(o: Option<Cell>, id: nat, level: nat, maxDepth: int, rest: seq<FlagWord>)
    ensures ReadSlot(WriteSlot(o, id, level, maxDepth) + rest, id) == Ok((TruncateSlot(o, level, maxDepth), rest))
    decreases o
  {
    var w := WriteSlot(o, id, level, maxDepth);
    assert (w + rest)[0] == w[0];
    if o.Some? && o.value.Node? && level != maxDepth {
      var c := o.value;
      var l := level + 1;
      var wa := WriteSlot(c.k0, 0, l, maxDepth);
      var wb := WriteSlot(c.k1, 1, l, maxDepth);
      var wx := WriteSlot(c.k2, 2, l, maxDepth);
      var wd := WriteSlot(c.k3, 3, l, maxDepth);
      assert (w + rest)[1..] == wa + (wb + (wx + (wd + rest)));
      RoundTripSlot(c.k0, 0, l, maxDepth, wb + (wx + (wd + rest)));
      RoundTripSlot(c.k1, 1, l, maxDepth, wx + (wd + rest));
      RoundTripSlot(c.k2, 2, l, maxDepth, wd + rest);
      RoundTripSlot(c.k3, 3, l, maxDepth, rest);
      var n1 := WithSlot(NewOct, 0, TruncateSlot(c.k0, l, maxDepth));
      var n2 := WithSlot(n1, 1, TruncateSlot(c.k1, l, maxDepth));
      var n3 := WithSlot(n2, 2, TruncateSlot(c.k2, l, maxDepth));
      var n4 := WithSlot(n3, 3, TruncateSlot(c.k3, l, maxDepth));
      assert ReadKids(wa + (wb + (wx + (wd + rest))), NewOct, 0) == ReadKids(wb + (wx + (wd + rest)), n1, 1);
      assert ReadKids(wb + (wx + (wd + rest)), n1, 1) == ReadKids(wx + (wd + rest), n2, 2);
      assert ReadKids(wx + (wd + rest), n2, 2) == ReadKids(wd + rest, n3, 3);
      assert ReadKids(wd + rest, n3, 3) == ReadKids(rest, n4, 4);
      assert n4 == TruncateSlot(o, level, maxDepth).value;
    } else {
      assert (w + rest)[1..] == rest;
    }
  }

  /** The round trip from the root. */
  lemma RoundTrip(t: Cell, maxDepth: int)
    ensures Read(Write(t, maxDepth)) == Ok((TruncateSlot(Some(t), 0, maxDepth), []))
  {
    RoundTripSlot(Some(t), 0, 0, maxDepth, []);
    assert Write(t, maxDepth) + [] == Write(t, maxDepth);
  }
}
