/** `CMap::Load` of engine/shared/map.cpp: the checks that make loading
    fail, the 32-bit overflow guard on tilemap sizes, and the expansion of
    skip-run compressed tile layers.

    The data file is given as a value (its version item, its groups and
    its layer items); opening and reading it, and `mem_alloc`, are outside
    this model: whether a file opens is an `Option`, and whether each
    allocation succeeds is a parameter. */
module EngineMap {
  import opened CBase

  newtype byte = x: int | 0 <= x < 256

  /** `CTile`: four unsigned chars, so `sizeof(CTile)` is 4. */
  datatype Tile = Tile(index: byte, flags: byte, skip: byte, reserved: byte)

  const TILE_SIZE: int := 4

  /** A stored tile as it is copied out: the same tile with `m_Skip` 0. */
  function Unskip(t: Tile): (r: Tile)
    ensures r.skip == 0 && r.index == t.index && r.flags == t.flags && r.reserved == t.reserved
  {
    t.(skip := 0)
  }

  function Copies(t: Tile, n: nat): (r: seq<Tile>)
    ensures |r| == n && forall i :: 0 <= i < n ==> r[i] == t
  {
    seq(n, _ => t)
  }

  /** The full expansion of stored tiles: each stored tile in order,
      repeated `m_Skip + 1` times, with `m_Skip` cleared. */
  function Runs(saved: seq<Tile>): (r: seq<Tile>)
    ensures |r| == RunLength(saved)
  {
    if saved == [] then []
    else
      var last := saved[|saved| - 1];
      Runs(saved[..|saved| - 1]) + Copies(Unskip(last), last.skip as nat + 1)
  }

  /** Number of tiles the stored tiles expand to. */
  function RunLength(saved: seq<Tile>): nat {
    if saved == [] then 0
    else RunLength(saved[..|saved| - 1]) + saved[|saved| - 1].skip as nat + 1
  }

  /** Extending the stored tiles by one extends the expansion by that
      tile's run. */
  lemma RunsAppend(saved: seq<Tile>, t: Tile)
    ensures Runs(saved + [t]) == Runs(saved) + Copies(Unskip(t), t.skip as nat + 1)
    ensures RunLength(saved + [t]) == RunLength(saved) + t.skip as nat + 1
  {
    assert (saved + [t])[..|saved|] == saved;
  }

  /** Stored tile `k` fills the positions from `RunLength(saved[..k])` on,
      `m_Skip + 1` of them, with itself minus its skip count. */
  lemma {:induction false} RunsSegment(saved: seq<Tile>, k: int)
    requires 0 <= k < |saved|
    ensures RunLength(saved[..k]) + saved[k].skip as nat + 1 <= RunLength(saved)
    ensures Runs(saved)[RunLength(saved[..k])..RunLength(saved[..k]) + saved[k].skip as nat + 1]
         == Copies(Unskip(saved[k]), saved[k].skip as nat + 1)
    decreases |saved|
  {
    var n := |saved| - 1;
    var prefix := saved[..n];
    RunsAppend(prefix, saved[n]);
    assert saved == prefix + [saved[n]];
    if k == n {
      assert saved[..k] == prefix;
    } else {
      RunsSegment(prefix, k);
      assert prefix[..k] == saved[..k];
      assert prefix[k] == saved[k];
      var start := RunLength(saved[..k]);
      var stop := start + saved[k].skip as nat + 1;
      assert Runs(saved)[start..stop] == Runs(prefix)[start..stop];
    }
  }

  /** Longer prefixes expand to at least as many tiles. */
  lemma {:induction false} RunLengthPrefix(saved: seq<Tile>, k: int)
    requires 0 <= k <= |saved|
    ensures RunLength(saved[..k]) <= RunLength(saved)
    decreases |saved|
  {
    if k < |saved| {
      var n := |saved| - 1;
      assert RunLength(saved) == RunLength(saved[..n]) + saved[n].skip as nat + 1;
      assert saved[..n][..k] == saved[..k];
      RunLengthPrefix(saved[..n], k);
    } else {
      assert saved[..k] == saved;
    }
  }

  /** Every expanded tile has its skip count cleared. */
  lemma {:induction false} RunsUnskipped(saved: seq<Tile>)
    ensures forall t :: t in Runs(saved) ==> t.skip == 0
  {
    if saved != [] {
      RunsUnskipped(saved[..|saved| - 1]);
    }
  }

  /** The extraction loop of `Load`: fills `count` tiles from the stored
      ones, taking `m_Skip + 1` copies of each stored tile in turn, with
      `m_Skip` cleared, and cutting the last run short at `count`. The
      stored data must hold enough runs to fill the layer. */
  method ExpandTiles(saved: seq<Tile>, count: int) returns (tiles: array<Tile>)
    requires count <= RunLength(saved)
    ensures fresh(tiles)
    ensures tiles.Length == if count < 0 then 0 else count
    ensures tiles[..] == Runs(saved)[..tiles.Length]
  {
    var n := if count < 0 then 0 else count;
    tiles := new Tile[n](_ => Tile(0, 0, 0, 0));
    assert saved[..|saved|] == saved;
    var i := 0;
    var k := 0;
    while i < count
      invariant 0 <= k <= |saved| && 0 <= i <= n
      invariant i == Min(n, RunLength(saved[..k]))
      invariant tiles[..i] == Runs(saved)[..i]
      decreases n - i
    {
      i := CopyRun(tiles, saved, k, i);
      k := k + 1;
    }
    if n > 0 {
      assert i == n;
    }
  }

  /** The run of stored tile `k`, position by position: it ends where the
      first `k + 1` stored tiles end, and each of its positions holds the
      tile with its skip count cleared. */
  lemma RunPositions(saved: seq<Tile>, k: int)
    requires 0 <= k < |saved|
    ensures RunLength(saved[..k + 1]) == RunLength(saved[..k]) + saved[k].skip as nat + 1 <= RunLength(saved)
    ensures forall c :: RunLength(saved[..k]) <= c < RunLength(saved[..k + 1]) ==> Runs(saved)[c] == Unskip(saved[k])
  {
    RunLengthStep(saved, k);
    RunsSegment(saved, k);
    var start := RunLength(saved[..k]);
    var stop := start + saved[k].skip as nat + 1;
    var runs := Runs(saved);
    var run := runs[start..stop];
    assert run == Copies(Unskip(saved[k]), saved[k].skip as nat + 1);
    forall c | start <= c < stop
      ensures runs[c] == Unskip(saved[k])
    {
      assert runs[c] == run[c - start];
    }
  }

  /** One more stored tile adds its run to the length. */
  lemma RunLengthStep(saved: seq<Tile>, k: int)
    requires 0 <= k < |saved|
    ensures RunLength(saved[..k + 1]) == RunLength(saved[..k]) + saved[k].skip as nat + 1
  {
    assert saved[..k + 1][..k] == saved[..k];
  }

  /** The inner loop of the extraction: the copies of stored tile `k`,
      written from the position where its run starts until the run or the
      layer ends. */
  method CopyRun(tiles: array<Tile>, saved: seq<Tile>, k: int, start: int) returns (i: int)
    requires 0 <= k < |saved|
    requires start == RunLength(saved[..k]) < tiles.Length
    requires start <= RunLength(saved)
    requires tiles[..start] == Runs(saved)[..start]
    modifies tiles
    ensures start < i <= RunLength(saved)
    ensures i == Min(tiles.Length, RunLength(saved[..k + 1]))
    ensures tiles[..i] == Runs(saved)[..i]
  {
    RunPositions(saved, k);
    ghost var runs := Runs(saved);
    i := start;
    var counter := 0;
    while counter <= saved[k].skip as int && i < tiles.Length
      invariant 0 <= counter <= saved[k].skip as int + 1
      invariant i == start + counter <= tiles.Length
      invariant tiles[..i] == runs[..i]
      decreases tiles.Length - i
    {
      assert runs[i] == Unskip(saved[k]);
      tiles[i] := saved[k];
      tiles[i] := tiles[i].(skip := 0);
      assert tiles[..i + 1] == tiles[..i] + [tiles[i]];
      assert runs[..i + 1] == runs[..i] + [runs[i]];
      i := i + 1;
      counter := counter + 1;
    }
  }

  /** The guard's first division, `TilemapCount / m_Width`, is defined in
      C: the width is not 0, and the wrapped count is not `INT_MIN` divided
      by -1 (which happens for width -1 and height `INT_MIN`). The second
      division is by `sizeof(CTile)` and always defined. */
  predicate GuardDefined(width: int, height: int) {
    width != 0 && !(width == -1 && Wrap32(width * height) == INT32_MIN)
  }

  /** For dimensions stored in `int`s, the guard is undefined for width 0
      and for width -1 with height `INT_MIN`, and for no other size. */
  lemma GuardUndefinedCases(width: int, height: int)
    requires IsInt32(width) && IsInt32(height)
    ensures !GuardDefined(width, height) <==> width == 0 || (width == -1 && height == INT32_MIN)
  {
    if width == -1 && height != INT32_MIN {
      assert IsInt32(width * height);
    }
  }

  /** What `Load` checks a tilemap's dimensions with: `Width * Height`
      and `TilemapCount * sizeof(CTile)` as stored into an `int`, then
      divided back. */
  predicate SizeAccepted(width: int, height: int)
    requires GuardDefined(width, height)
  {
    var count := Wrap32(width * height);
    var size := Wrap32(count * TILE_SIZE);
    TruncDiv(count, width) == height && TruncDiv(size, TILE_SIZE) == count
  }

  /** A C division that divides a wrapped product back gives the other
      factor exactly when the product did not wrap. */
  lemma DivideBack(a: int, b: int)
    requires IsInt32(a) && IsInt32(b) && b != 0
    ensures TruncDiv(Wrap32(a * b), b) == a <==> IsInt32(a * b)
  {
    if IsInt32(a * b) {
      DivideExact(a * b, a, b);
    } else {
      DivideWrapped(a * b, a, b);
    }
  }

  lemma DivideExact(x: int, a: int, b: int)
    requires x == a * b && b != 0
    ensures TruncDiv(x, b) == a
  {
    var q := TruncDiv(x, b);
    TruncDivRemainder(x, b);
    assert x - q * b == (a - q) * b;
    AbsMul(a - q, b);
    if a - q != 0 {
      MulAtLeast(Abs(b), Abs(a - q));
    }
  }

  lemma DivideWrapped(x: int, a: int, b: int)
    requires x == a * b && !IsInt32(x) && IsInt32(b) && b != 0
    ensures TruncDiv(Wrap32(x), b) != a
  {
    var p := Wrap32(x);
    TruncDivRemainder(p, b);
    NonZeroMultiple(x - p);
  }

  lemma AbsMul(d: int, b: int)
    ensures Abs(d * b) == Abs(d) * Abs(b)
  {
    if d < 0 && b < 0 {
      assert d * b == (-d) * (-b);
    } else if d < 0 {
      assert d * b == -((-d) * b);
    } else if b < 0 {
      assert d * b == -(d * (-b));
    }
  }

  lemma MulAtLeast(x: nat, y: nat)
    requires y >= 1
    ensures x * y >= x
  {
    assert x * y == x * (y - 1) + x;
  }

  lemma NonZeroMultiple(x: int)
    requires x % TWO32 == 0 && x != 0
    ensures Abs(x) >= TWO32
  {
  }

  /** The overflow guard rejects a tilemap exactly when its tile count or
      its byte size does not fit a 32-bit `int`. */
  lemma {:induction false} SizeAcceptedIffFits(width: int, height: int)
    requires IsInt32(width) && IsInt32(height) && GuardDefined(width, height)
    ensures SizeAccepted(width, height) <==> IsInt32(width * height) && IsInt32(width * height * TILE_SIZE)
  {
    DivideBack(height, width);
    assert height * width == width * height;
    if IsInt32(width * height) {
      DivideBack(width * height, TILE_SIZE);
    }
  }

  /** Map items `Load` reads. A tilemap carries its version, its size and
      its stored (compressed) tiles. */
  datatype LayerItem =
    | TilemapItem(version: int, width: int, height: int, data: seq<Tile>)
    | OtherItem

  datatype Group = Group(startLayer: int, numLayers: int)

  /** An opened map file: whether it has a version item, its groups, and
      its layer items (the items of type `MAPITEMTYPE_LAYER`, in order). */
  datatype DataFile = DataFile(hasVersion: bool, groups: seq<Group>, layers: seq<LayerItem>)

  /** Tilemaps of version 4 and above are stored compressed. */
  predicate Compressed(item: LayerItem) {
    item.TilemapItem? && item.version > 3
  }

  /** A layer the file refers to exists (a group with no layers, or a
      negative count, refers to none); a compressed one has dimensions for
      which the guard's divisions are defined and, if its size is
      accepted, enough stored runs to fill it. */
  predicate ItemReadable(item: LayerItem) {
    Compressed(item) ==>
      && IsInt32(item.width) && IsInt32(item.height) && GuardDefined(item.width, item.height)
      && (SizeAccepted(item.width, item.height) ==> Wrap32(item.width * item.height) <= RunLength(item.data))
  }

  predicate FileReadable(f: DataFile) {
    forall g :: 0 <= g < |f.groups| ==> GroupReadable(f, g)
  }

  predicate GroupReadable(f: DataFile, g: int)
    requires 0 <= g < |f.groups|
  {
    var grp := f.groups[g];
    grp.numLayers > 0 ==>
      && 0 <= grp.startLayer && grp.startLayer + grp.numLayers <= |f.layers|
      && forall l :: grp.startLayer <= l < grp.startLayer + grp.numLayers ==> ItemReadable(f.layers[l])
  }

  /** Layer `l` of group `g` does not make loading fail: it is not a
      compressed tilemap, or its size is accepted and its buffer could be
      allocated. */
  predicate LayerLoads(f: DataFile, g: int, l: int, allocates: (int, int) -> bool)
    requires 0 <= g < |f.groups| && GroupReadable(f, g) && 0 <= l < f.groups[g].numLayers
  {
    var item := f.layers[f.groups[g].startLayer + l];
    Compressed(item) ==> SizeAccepted(item.width, item.height) && allocates(g, l)
  }

  /** When `Load` succeeds: it has a kernel and storage, the file opens
      and has a version item, and every layer loads. */
  predicate Loads(hasKernel: bool, hasStorage: bool, file: Option<DataFile>, allocates: (int, int) -> bool)
    requires file.Some? ==> FileReadable(file.value)
  {
    && hasKernel && hasStorage && file.Some? && file.value.hasVersion
    && forall g, l :: 0 <= g < |file.value.groups| && 0 <= l < file.value.groups[g].numLayers ==>
         LayerLoads(file.value, g, l, allocates)
  }

  /** A compressed tilemap whose byte size does not fit a 32-bit `int`
      makes the whole map fail to load, whatever the allocator does. */
  lemma OverflowFailsLoad(hasKernel: bool, hasStorage: bool, f: DataFile, allocates: (int, int) -> bool, g: int, l: int)
    requires FileReadable(f)
    requires 0 <= g < |f.groups| && 0 <= l < f.groups[g].numLayers && GroupReadable(f, g)
    requires Compressed(f.layers[f.groups[g].startLayer + l])
    requires !IsInt32(f.layers[f.groups[g].startLayer + l].width * f.layers[f.groups[g].startLayer + l].height * TILE_SIZE)
    ensures !Loads(hasKernel, hasStorage, Some(f), allocates)
  {
    var item := f.layers[f.groups[g].startLayer + l];
    assert ItemReadable(item);
    SizeAcceptedIffFits(item.width, item.height);
    assert !LayerLoads(f, g, l, allocates);
  }

  /** `CMap::Load`: fails without a kernel or storage, when the file does
      not open, when it has no version item, or on the first compressed
      tilemap that overflows or whose buffer cannot be allocated; otherwise
      expands every compressed tilemap and succeeds. The expanded buffers
      are not kept (the call that would store them is commented out). */
  method Load(hasKernel: bool, hasStorage: bool, file: Option<DataFile>, allocates: (int, int) -> bool)
    returns (ok: bool)
    requires file.Some? ==> FileReadable(file.value)
    ensures ok == Loads(hasKernel, hasStorage, file, allocates)
  {
    if !hasKernel {
      return false;
    }
    if !hasStorage {
      return false;
    }
    if file.None? {
      return false;
    }
    var f := file.value;
    if !f.hasVersion {
      return false;
    }
    for g := 0 to |f.groups|
      invariant forall g', l :: 0 <= g' < g && 0 <= l < f.groups[g'].numLayers ==> LayerLoads(f, g', l, allocates)
    {
      assert GroupReadable(f, g);
      var group := f.groups[g];
      var numLayers := if group.numLayers < 0 then 0 else group.numLayers;
      for l := 0 to numLayers
        invariant forall g', l' :: 0 <= g' < g && 0 <= l' < f.groups[g'].numLayers ==> LayerLoads(f, g', l', allocates)
        invariant forall l' :: 0 <= l' < l ==> LayerLoads(f, g, l', allocates)
      {
        var layer := f.layers[group.startLayer + l];
        assert ItemReadable(layer);
        if layer.TilemapItem? {
          if layer.version > 3 {
            var count := Wrap32(layer.width * layer.height);
            var size := Wrap32(count * TILE_SIZE);
            if TruncDiv(count, layer.width) != layer.height || TruncDiv(size, TILE_SIZE) != count {
              assert !LayerLoads(f, g, l, allocates);
              return false;
            }
            if !allocates(g, l) {
              assert !LayerLoads(f, g, l, allocates);
              return false;
            }
            var tiles := ExpandTiles(layer.data, count);
          }
        }
      }
    }
    return true;
  }
}
