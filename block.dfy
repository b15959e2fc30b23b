/**
 * The spawner of js/Block.js. The Block constructor takes one entry out of
 * the board's emptyPos array and writes a 2 or a 4 (or a given value) into
 * the board's state. emptyPos is a JavaScript array that the board and the
 * block share by reference; PositionList is that array with the three
 * Array methods the engine uses. The two calls of Math.random become the
 * real parameters rValue and rIndex, each in [0, 1).
 */
module Blocks {
  import opened Config
  import opened Grids
  import opened Options

  /** The first index of `c` in `s`, or -1 (Array.prototype.findIndex with an equality test). */
  function IndexOf(s: seq<Coord>, c: Coord): (k: int)
    ensures -1 <= k < |s|
    ensures k == -1 <==> c !in s
    ensures k >= 0 ==> s[k] == c && c !in s[..k]
  {
    if s == [] then -1
    else if s[0] == c then 0
    else
      var k := IndexOf(s[1..], c);
      assert k >= 0 ==> s[..k + 1] == [s[0]] + s[1..][..k];
      if k == -1 then -1 else k + 1
  }

  /** Where Array.prototype.splice(start, 1) starts: a negative start counts from the end. */
  function SpliceStart(start: int, len: nat): (k: nat)
    ensures k <= len
    ensures 0 <= start <= len ==> k == start
    ensures 0 <= len as int + start && start < 0 ==> k as int == len + start
  {
    if start < 0 then (if len + start < 0 then 0 else len + start)
    else if start > len then len
    else start
  }

  /** A JavaScript array of coordinates, shared by reference. */
  class PositionList {
    var items: seq<Coord>

    constructor ()
      ensures items == []
    {
      items := [];
    }

    /** Array.prototype.push */
    method Push(c: Coord)
      modifies this
      ensures items == old(items) + [c]
    {
      items := items + [c];
    }

    function FindIndex(c: Coord): (k: int)
      reads this
      ensures -1 <= k < |items|
      ensures k == -1 <==> c !in items
      ensures k >= 0 ==> items[k] == c && c !in items[..k]
    {
      IndexOf(items, c)
    }

    /** Array.prototype.splice(start, 1): removes the element at the start position, if there is one. */
    method SpliceOne(start: int) returns (removed: seq<Coord>)
      modifies this
      ensures var k := SpliceStart(start, |old(items)|);
        if k < |old(items)| then
          removed == [old(items)[k]] && items == old(items)[..k] + old(items)[k + 1..]
        else
          removed == [] && items == old(items)
    {
      var k := SpliceStart(start, |items|);
      if k < |items| {
        removed := [items[k]];
        items := items[..k] + items[k + 1..];
      } else {
        removed := [];
      }
    }
  }

  /** `value || Math.floor(r * 2) * 2 + 2`: a given non-zero value, else 2 or 4. */
  function BlockValue(value: Option<int>, r: real): (v: int)
    requires 0.0 <= r < 1.0
    ensures value.Some? && value.value != 0 ==> v == value.value
    ensures value.None? || value.value == 0 ==> (v == 2 || v == 4) && (v == 2 <==> r < 0.5)
    ensures v != 0
  {
    if value.Some? && value.value != 0 then value.value
    else
      assert (r * 2.0).Floor == if r < 0.5 then 0 else 1;
      (r * 2.0).Floor * 2 + 2
  }

  /** Math.floor(r * len) for a random r in [0, 1): an index into a non-empty array. */
  function PickIndex(r: real, len: nat): (k: int)
    requires 0.0 <= r < 1.0 && len > 0
    ensures 0 <= k < len
  {
    assert r * (len as real) < len as real by {
      assert (1.0 - r) * (len as real) > 0.0;
    }
    (r * (len as real)).Floor
  }

  /** A new tile on the board. */
  class Block {
    var value: int
    var row: int
    var col: int

    /**
     * Picks the entry at floor(rIndex * emptyPos.length), removes it from
     * emptyPos (the other entries keep their order), and writes the value
     * into that cell of `state`; the block records the cell.
     */
    constructor (state: seq<array<int>>, emptyPos: PositionList, value: Option<int>, rValue: real, rIndex: real)
      requires IsBoard(state) && DistinctRows(state)
      requires |emptyPos.items| > 0 && forall c :: c in emptyPos.items ==> InGrid(c)
      requires 0.0 <= rValue < 1.0 && 0.0 <= rIndex < 1.0
      modifies emptyPos, state
      ensures this.value == BlockValue(value, rValue)
      ensures var k := PickIndex(rIndex, |old(emptyPos.items)|);
        && Coord(row, col) == old(emptyPos.items)[k]
        && emptyPos.items == old(emptyPos.items)[..k] + old(emptyPos.items)[k + 1..]
      ensures InGrid(Coord(row, col))
      ensures Contents(state) == SetCell(old(Contents(state)), Coord(row, col), this.value)
    {
      var v := BlockValue(value, rValue);
      var idx := PickIndex(rIndex, |emptyPos.items|);
      var removed := emptyPos.SpliceOne(idx);
      var pos := removed[0];
      WriteCell(state, pos, v);
      this.value := v;
      this.row := pos.row;
      this.col := pos.col;
    }
  }
}
