/** The tile-grid collision queries of game/collision.cpp.

    Tile indices are bytes (`CTile::m_Index` is an unsigned char). The
    `TILE_*` and `COLFLAG_*` constants come from headers outside this
    model, so they are carried symbolically in a `Codes` value. The
    blocked-point test `CheckPoint` and quad containment (which needs
    rotation, barycentric coordinates and the animation evaluator) are
    parameters; positions and velocities are reals. */
module Collision {
  import opened CBase

  /** TILE_DEATH, TILE_SOLID, TILE_NOHOOK and the flags they become. */
  datatype Codes = Codes(tileDeath: bv8, tileSolid: bv8, tileNoHook: bv8,
                         colSolid: bv8, colDeath: bv8, colNoHook: bv8)

  /** What the game relies on of these constants: three distinct tile codes
      that `Init` reclassifies (so at most 128), and a solid flag that the
      death flag does not contain. */
  predicate WellFormed(c: Codes) {
    && c.tileDeath as int <= 128 && c.tileSolid as int <= 128 && c.tileNoHook as int <= 128
    && c.tileDeath != c.tileSolid && c.tileDeath != c.tileNoHook
    && c.colSolid != 0 && c.colSolid & c.colDeath == 0
    && (c.colSolid | c.colNoHook) as int <= 128
  }

  /** The rewrite `Init` applies to one raw tile index (the switch,
      including the skip of indices above 128). */
  function Classify(c: Codes, v: bv8): (r: bv8)
    ensures v as int > 128 ==> r == v
    ensures v as int <= 128 ==> r in {c.colDeath, c.colSolid, c.colSolid | c.colNoHook, 0}
  {
    if v as int > 128 then v
    else if v == c.tileDeath then c.colDeath
    else if v == c.tileSolid then c.colSolid
    else if v == c.tileNoHook then c.colSolid | c.colNoHook
    else 0
  }

  /** What `GetTile` (and the tile part of `GetZoneValueAt`) makes of a
      stored index: indices above 128 read as 0. */
  function ReadIndex(v: bv8): (r: bv8)
    ensures r as int <= 128
    ensures r == v || r == 0
  {
    if v as int > 128 then 0 else v
  }

  /** The column (or row) of coordinate `x` on a grid `w` cells wide:
      `clamp(x/32, 0, w-1)` with C's truncating division. */
  function CellOf(x: int, w: int): (r: int)
    requires w >= 1
    ensures 0 <= r < w
  {
    Clamp(TruncDiv(x, 32), 0, w - 1)
  }

  /** Out-of-map coordinates read a border cell: negative coordinates the
      first, coordinates past the right edge the last. */
  lemma CellOfExplicit(x: int, w: int)
    requires w >= 1
    ensures CellOf(x, w) == if x < 0 then 0 else if x >= 32 * w then w - 1 else x / 32
  {
    TruncDivRemainder(x, 32);
    if x >= 0 {
      TruncDivNonNegative(x, 32);
    }
  }

  lemma CellIndexInRange(nx: int, ny: int, w: int, h: int)
    requires 0 <= nx < w && 0 <= ny < h
    ensures 0 <= ny * w + nx < w * h
  {
    assert ny * w + nx < ny * w + w == (ny + 1) * w;
    assert (ny + 1) * w <= h * w;
  }

  /** `Ny*Width+Nx` for the clamped cell of `(x, y)`: always inside the
      `w * h` grid. */
  function CellIndex(x: int, y: int, w: int, h: int): (r: int)
    requires w >= 1 && h >= 1
    ensures 0 <= r < w * h
    ensures r == CellOf(y, h) * w + CellOf(x, w)
  {
    CellIndexInRange(CellOf(x, w), CellOf(y, h), w, h);
    CellOf(y, h) * w + CellOf(x, w)
  }

  /** The point at the centre of cell `i` lies in cell `i`. */
  lemma CellOfCentre(i: int, w: int)
    requires 0 <= i < w
    ensures CellOf(32 * i + 16, w) == i
  {
    CellOfExplicit(32 * i + 16, w);
  }

  /** With well-formed codes, a reclassified cell is solid exactly when its
      raw tile was TILE_SOLID or TILE_NOHOOK. */
  lemma SolidAfterClassify(c: Codes, v: bv8)
    requires WellFormed(c)
    ensures ReadIndex(Classify(c, v)) & c.colSolid != 0 <==> v == c.tileSolid || v == c.tileNoHook
  {
    if v == c.tileSolid {
      assert Classify(c, v) == c.colSolid;
      assert c.colSolid & c.colSolid == c.colSolid;
    } else if v == c.tileNoHook {
      assert Classify(c, v) == c.colSolid | c.colNoHook;
      assert (c.colSolid | c.colNoHook) & c.colSolid == c.colSolid;
    } else if v as int <= 128 && v == c.tileDeath {
      assert Classify(c, v) == c.colDeath;
      assert c.colDeath & c.colSolid == c.colSolid & c.colDeath;
    }
  }

  /** Layers of the zone group: tile layers carry a name, a size and their
      tile indices; quad layers a name and the `m_ColorEnvOffset` of each
      quad; other layer types are ignored. Names are the decoded
      `m_aName`, so at most 11 characters. */
  datatype Layer =
    | TileLayer(name: string, width: int, height: int, data: seq<bv8>)
    | QuadLayer(name: string, colorEnvOffsets: seq<int>)
    | OtherLayer

  predicate LayerOk(layer: Layer) {
    layer.TileLayer? ==> layer.width >= 1 && layer.height >= 1 && |layer.data| >= layer.width * layer.height
  }

  predicate NamedLayer(layer: Layer, name: string) {
    (layer.TileLayer? || layer.QuadLayer?) && layer.name == name
  }

  /** Offsets, below `n`, of the tile and quad layers called `name`, in
      ascending order: the list `GetZoneHandle` builds. */
  function MatchingLayers(layers: seq<Layer>, name: string, n: int): (r: seq<int>)
    requires 0 <= n <= |layers|
  {
    if n == 0 then []
    else MatchingLayers(layers, name, n - 1) + if NamedLayer(layers[n - 1], name) then [n - 1] else []
  }

  /** The zone list holds exactly the offsets of the layers called `name`,
      each once, in ascending order. */
  lemma {:induction false} MatchingLayersExact(layers: seq<Layer>, name: string, n: int)
    requires 0 <= n <= |layers|
    ensures var r := MatchingLayers(layers, name, n);
      && (forall l :: l in r <==> 0 <= l < n && NamedLayer(layers[l], name))
      && (forall i, j :: 0 <= i < j < |r| ==> r[i] < r[j])
  {
    if n > 0 {
      MatchingLayersExact(layers, name, n - 1);
      var prev := MatchingLayers(layers, name, n - 1);
      var r := MatchingLayers(layers, name, n);
      if NamedLayer(layers[n - 1], name) {
        assert r == prev + [n - 1];
        forall i, j | 0 <= i < j < |r| ensures r[i] < r[j] {
          assert r[i] == prev[i] && r[i] in prev;
          if j < |prev| {
            assert r[j] == prev[j];
          }
        }
      } else {
        assert r == prev + [];
      }
    }
  }

  /** The values one zone layer writes into `Index` at the probed point, in
      order: a tile layer its cell's index when that reads non-zero; a quad
      layer the colour-envelope offset of each quad containing the point
      (`inQuad(l, q)`); any other layer nothing. */
  function LayerWrites(layer: Layer, l: int, rx: int, ry: int, inQuad: (int, int) -> bool): seq<int>
    requires LayerOk(layer)
  {
    match layer
    case TileLayer(_, w, h, data) =>
      var v := ReadIndex(data[CellIndex(rx, ry, w, h)]);
      if v as int > 0 then [v as int] else []
    case QuadLayer(_, offsets) => QuadWrites(offsets, l, inQuad, |offsets|)
    case OtherLayer => []
  }

  function QuadWrites(offsets: seq<int>, l: int, inQuad: (int, int) -> bool, n: int): seq<int>
    requires 0 <= n <= |offsets|
  {
    if n == 0 then []
    else QuadWrites(offsets, l, inQuad, n - 1) + if inQuad(l, n - 1) then [offsets[n - 1]] else []
  }

  predicate ListInRange(layers: seq<Layer>, list: seq<int>) {
    forall i :: 0 <= i < |list| ==> 0 <= list[i] < |layers| && LayerOk(layers[list[i]])
  }

  /** Every write of the layers of the first `n` entries of a zone list. */
  function ZoneWrites(layers: seq<Layer>, list: seq<int>, n: int, rx: int, ry: int, inQuad: (int, int) -> bool): seq<int>
    requires ListInRange(layers, list) && 0 <= n <= |list|
  {
    if n == 0 then []
    else ZoneWrites(layers, list, n - 1, rx, ry, inQuad) + LayerWrites(layers[list[n - 1]], list[n - 1], rx, ry, inQuad)
  }

  function LastOr(s: seq<int>, d: int): int {
    if s == [] then d else s[|s| - 1]
  }

  /** Last write wins: a layer that writes nothing (a tile cell reading 0,
      which includes stored indices above 128; no quad containing the
      point) leaves the zone value of the layers before it, and a layer
      that writes anything replaces it by its own last write. */
  lemma ZoneValueStep(layers: seq<Layer>, list: seq<int>, n: int, rx: int, ry: int, inQuad: (int, int) -> bool)
    requires ListInRange(layers, list) && 0 <= n < |list|
    ensures var before := LastOr(ZoneWrites(layers, list, n, rx, ry, inQuad), 0);
      var own := LayerWrites(layers[list[n]], list[n], rx, ry, inQuad);
      LastOr(ZoneWrites(layers, list, n + 1, rx, ry, inQuad), 0) == if own == [] then before else own[|own| - 1]
    ensures LastOr(ZoneWrites(layers, list, n + 1, rx, ry, inQuad), 0)
         == LastOr(LayerWrites(layers[list[n]], list[n], rx, ry, inQuad), LastOr(ZoneWrites(layers, list, n, rx, ry, inQuad), 0))
  {
    var own := LayerWrites(layers[list[n]], list[n], rx, ry, inQuad);
    var prev := ZoneWrites(layers, list, n, rx, ry, inQuad);
    if own == [] {
      assert ZoneWrites(layers, list, n + 1, rx, ry, inQuad) == prev + [];
      assert prev + [] == prev;
    }
  }

  /** One pass of `GetZoneValueAt`'s loop over the zone list: the layer
      `l` overwrites `index` with each value it writes, in order. */
  method LayerValue(layer: Layer, l: int, rx: int, ry: int, inQuad: (int, int) -> bool, before: int) returns (index: int)
    requires LayerOk(layer)
    ensures index == LastOr(LayerWrites(layer, l, rx, ry, inQuad), before)
  {
    index := before;
    match layer {
      case TileLayer(_, w, h, data) =>
        var cell := CellIndex(rx, ry, w, h);
        var tileIndex := if data[cell] as int > 128 then 0 else data[cell] as int;
        if tileIndex > 0 {
          index := tileIndex;
        }
      case QuadLayer(_, offsets) =>
        for q := 0 to |offsets|
          invariant index == LastOr(QuadWrites(offsets, l, inQuad, q), before)
        {
          if inQuad(l, q) {
            index := offsets[q];
          }
        }
      case OtherLayer =>
    }
  }

  /** A 2-vector of reals (`vec2` without the float rounding). */
  datatype Vec = Vec(x: real, y: real) {
    function Plus(o: Vec): Vec { Vec(x + o.x, y + o.y) }
    function Times(k: real): Vec { Vec(x * k, y * k) }
  }

  /** The result of `MovePoint`: the new position and velocity and the
      bounce count it stores through `pBounces`. */
  datatype PointMove = PointMove(pos: Vec, vel: Vec, bounces: nat)

  /** `MovePoint`: `blocked(x, y)` is `CheckPoint(x, y)`. */
  function MovePoint(pos: Vec, vel: Vec, elasticity: real, blocked: (real, real) -> bool): (m: PointMove)
    ensures !blocked(pos.x + vel.x, pos.y + vel.y) ==> m == PointMove(pos.Plus(vel), vel, 0)
    ensures blocked(pos.x + vel.x, pos.y + vel.y) ==> m.pos == pos
    ensures m.bounces <= 2
    ensures !blocked(pos.x, pos.y) ==> !blocked(m.pos.x, m.pos.y)
  {
    if !blocked(pos.x + vel.x, pos.y + vel.y) then
      PointMove(pos.Plus(vel), vel, 0)
    else
      var hitX := blocked(pos.x + vel.x, pos.y);
      var hitY := blocked(pos.x, pos.y + vel.y);
      var affected := (if hitX then 1 else 0) + (if hitY then 1 else 0);
      var vx := if hitX || affected == 0 then Rebound(vel.x, elasticity) else vel.x;
      var vy := if hitY || affected == 0 then Rebound(vel.y, elasticity) else vel.y;
      PointMove(pos, Vec(vx, vy), affected)
  }

  /** Each blocked single-axis probe reflects that component and counts one
      bounce; when the destination is blocked but neither probe is (a
      corner), both components are reflected and no bounce is counted. */
  lemma MovePointBounces(pos: Vec, vel: Vec, e: real, blocked: (real, real) -> bool)
    requires blocked(pos.x + vel.x, pos.y + vel.y)
    ensures var m := MovePoint(pos, vel, e, blocked);
      var hitX := blocked(pos.x + vel.x, pos.y);
      var hitY := blocked(pos.x, pos.y + vel.y);
      && m.bounces == (if hitX then 1 else 0) + (if hitY then 1 else 0)
      && (hitX || !hitY ==> m.vel.x == Rebound(vel.x, e))
      && (!hitX && hitY ==> m.vel.x == vel.x)
      && (hitY || !hitX ==> m.vel.y == Rebound(vel.y, e))
      && (hitX && !hitY ==> m.vel.y == vel.y)
  {
  }

  /** Landing on a floor: with the ground at height `ground` (y grows
      downwards) and a point above it moving into it, the point stays put,
      its vertical speed is reflected and damped and its horizontal speed
      kept, with one bounce. */
  lemma MovePointOntoFloor(pos: Vec, vel: Vec, e: real, ground: real, blocked: (real, real) -> bool)
    requires forall x, y :: blocked(x, y) <==> y >= ground
    requires pos.y < ground <= pos.y + vel.y
    ensures MovePoint(pos, vel, e, blocked) == PointMove(pos, Vec(vel.x, -e * vel.y), 1)
  {
    assert blocked(pos.x + vel.x, pos.y + vel.y);
    assert !blocked(pos.x + vel.x, pos.y);
    assert blocked(pos.x, pos.y + vel.y);
  }

  /** The four corner probes of a box of `size` centred on `pos`. */
  function Corners(pos: Vec, size: Vec): seq<Vec> {
    var hx := size.x / 2.0;
    var hy := size.y / 2.0;
    [Vec(pos.x - hx, pos.y - hy), Vec(pos.x + hx, pos.y - hy),
     Vec(pos.x - hx, pos.y + hy), Vec(pos.x + hx, pos.y + hy)]
  }

  /** `TestBox`: true as soon as one corner probe is blocked, in the order
      top-left, top-right, bottom-left, bottom-right. */
  function TestBox(pos: Vec, size: Vec, blocked: (real, real) -> bool): bool {
    var hx := size.x / 2.0;
    var hy := size.y / 2.0;
    if blocked(pos.x - hx, pos.y - hy) then true
    else if blocked(pos.x + hx, pos.y - hy) then true
    else if blocked(pos.x - hx, pos.y + hy) then true
    else blocked(pos.x + hx, pos.y + hy)
  }

  /** `TestBox` is true exactly when one of the four corner probes is
      blocked, whatever the order it tries them in. */
  lemma TestBoxCorners(pos: Vec, size: Vec, blocked: (real, real) -> bool)
    ensures TestBox(pos, size, blocked) <==> exists c :: c in Corners(pos, size) && blocked(c.x, c.y)
  {
    var cs := Corners(pos, size);
    if TestBox(pos, size, blocked) {
      if blocked(cs[0].x, cs[0].y) {
      } else if blocked(cs[1].x, cs[1].y) {
      } else if blocked(cs[2].x, cs[2].y) {
      } else {
        assert blocked(cs[3].x, cs[3].y);
      }
    }
  }

  /** One sub-step of `MoveBox`: move by `vel * fraction`; if the box
      collides there, revert the y coordinate when the box at the old x is
      blocked, revert x when the box at the old y is blocked (reflecting and
      damping that velocity component each time), and revert both when
      neither probe collides. */
  function BoxStep(pos: Vec, vel: Vec, size: Vec, e: real, fraction: real, blocked: (real, real) -> bool): (Vec, Vec) {
    var next := pos.Plus(vel.Times(fraction));
    if !TestBox(next, size, blocked) then (next, vel)
    else
      var hitY := TestBox(Vec(pos.x, next.y), size, blocked);
      var hitX := TestBox(Vec(next.x, pos.y), size, blocked);
      var revertX := hitX || !hitY;
      var revertY := hitY || !hitX;
      (Vec(if revertX then pos.x else next.x, if revertY then pos.y else next.y),
       Vec(if revertX then Rebound(vel.x, e) else vel.x, if revertY then Rebound(vel.y, e) else vel.y))
  }

  /** `n` sub-steps. */
  function BoxSteps(pos: Vec, vel: Vec, size: Vec, e: real, fraction: real, blocked: (real, real) -> bool, n: nat): (Vec, Vec) {
    if n == 0 then (pos, vel)
    else
      var pv := BoxSteps(pos, vel, size, e, fraction, blocked, n - 1);
      BoxStep(pv.0, pv.1, size, e, fraction, blocked)
  }

  /** A box that is clear before a sub-step is clear after it: every
      position a sub-step can end on is either the free target, one of the
      two single-axis probes that was found clear, or the old position. */
  lemma BoxStepStaysClear(pos: Vec, vel: Vec, size: Vec, e: real, fraction: real, blocked: (real, real) -> bool)
    requires !TestBox(pos, size, blocked)
    ensures !TestBox(BoxStep(pos, vel, size, e, fraction, blocked).0, size, blocked)
  {
  }

  /** `pos` moved `n` times by `d`. */
  function Repeat(pos: Vec, d: Vec, n: nat): Vec {
    if n == 0 then pos else Repeat(pos, d, n - 1).Plus(d)
  }

  lemma {:induction false} RepeatScaled(pos: Vec, d: Vec, n: nat)
    ensures Repeat(pos, d, n).x == pos.x + n as real * d.x
    ensures Repeat(pos, d, n).y == pos.y + n as real * d.y
  {
    if n > 0 {
      RepeatScaled(pos, d, n - 1);
      OneMore((n - 1) as real, d.x);
      OneMore((n - 1) as real, d.y);
    }
  }

  lemma OneMore(k: real, a: real)
    ensures k * a + a == (k + 1.0) * a
  {
  }

  /** With nothing in the way, every sub-step moves the box by
      `vel * fraction` and leaves `vel` alone. */
  lemma {:induction false} FreeFlight(pos: Vec, vel: Vec, size: Vec, e: real, fraction: real, blocked: (real, real) -> bool, n: nat)
    requires forall x, y :: !blocked(x, y)
    ensures BoxSteps(pos, vel, size, e, fraction, blocked, n) == (Repeat(pos, vel.Times(fraction), n), vel)
  {
    if n > 0 {
      FreeFlight(pos, vel, size, e, fraction, blocked, n - 1);
      var p := Repeat(pos, vel.Times(fraction), n - 1);
      NothingBlocked(p.Plus(vel.Times(fraction)), size, blocked);
    }
  }

  lemma NothingBlocked(pos: Vec, size: Vec, blocked: (real, real) -> bool)
    requires forall x, y :: !blocked(x, y)
    ensures !TestBox(pos, size, blocked)
  {
  }

  /** A box moved by `MoveBox` through empty space ends at `pos + vel`:
      the `n` sub-steps of `vel / n` add up to the whole velocity. */
  lemma MoveBoxFreeFlight(pos: Vec, vel: Vec, size: Vec, e: real, blocked: (real, real) -> bool, n: nat)
    requires forall x, y :: !blocked(x, y)
    requires n >= 1
    ensures BoxSteps(pos, vel, size, e, 1.0 / n as real, blocked, n) == (pos.Plus(vel), vel)
  {
    var d := vel.Times(1.0 / n as real);
    FreeFlight(pos, vel, size, e, 1.0 / n as real, blocked, n);
    RepeatScaled(pos, d, n);
    Cancel(n as real, vel.x);
    Cancel(n as real, vel.y);
    var r := Repeat(pos, d, n);
    assert r.x == pos.x + vel.x && r.y == pos.y + vel.y;
    assert r == Vec(r.x, r.y);
  }

  lemma Cancel(k: real, a: real)
    requires k > 0.0
    ensures k * (a * (1.0 / k)) == a
  {
    assert k * (a * (1.0 / k)) == a * (k * (1.0 / k));
    assert k * (1.0 / k) == 1.0;
  }

  /** A velocity component after hitting something: `v *= -Elasticity`. */
  function Rebound(v: real, e: real): real {
    v * -e
  }

  function AbsR(r: real): real {
    if r < 0.0 then -r else r
  }

  /** `w` is nowhere faster than `v`, axis by axis. */
  predicate NoFaster(w: Vec, v: Vec) {
    AbsR(w.x) <= AbsR(v.x) && AbsR(w.y) <= AbsR(v.y)
  }

  /** With an elasticity in [0, 1] no sub-step speeds the box up along
      either axis. */
  lemma {:induction false} BoxStepsDamp(pos: Vec, vel: Vec, size: Vec, e: real, fraction: real, blocked: (real, real) -> bool, n: nat)
    requires 0.0 <= e <= 1.0
    ensures NoFaster(BoxSteps(pos, vel, size, e, fraction, blocked, n).1, vel)
  {
    if n > 0 {
      BoxStepsDamp(pos, vel, size, e, fraction, blocked, n - 1);
      var pv := BoxSteps(pos, vel, size, e, fraction, blocked, n - 1);
      BoxStepDamps(pv.0, pv.1, size, e, fraction, blocked);
    }
  }

  lemma BoxStepDamps(pos: Vec, vel: Vec, size: Vec, e: real, fraction: real, blocked: (real, real) -> bool)
    requires 0.0 <= e <= 1.0
    ensures NoFaster(BoxStep(pos, vel, size, e, fraction, blocked).1, vel)
  {
    BoxStepVelocity(pos, vel, size, e, fraction, blocked);
    DampOne(vel.x, e);
    DampOne(vel.y, e);
  }

  /** A sub-step either keeps a velocity component or reflects and damps it. */
  lemma BoxStepVelocity(pos: Vec, vel: Vec, size: Vec, e: real, fraction: real, blocked: (real, real) -> bool)
    ensures var v := BoxStep(pos, vel, size, e, fraction, blocked).1;
      (v.x == vel.x || v.x == Rebound(vel.x, e)) && (v.y == vel.y || v.y == Rebound(vel.y, e))
  {
  }

  lemma DampOne(v: real, e: real)
    requires 0.0 <= e <= 1.0
    ensures AbsR(Rebound(v, e)) <= AbsR(v)
  {
    if v >= 0.0 {
      assert Rebound(v, e) == -(v * e);
      assert 0.0 <= v * e <= v * 1.0;
    } else {
      assert Rebound(v, e) == (-v) * e;
      assert 0.0 <= (-v) * e <= (-v) * 1.0;
    }
  }

  /** `d` is the length of `v` (what `length(Vel)` computes). */
  predicate IsLength(d: real, v: Vec) {
    0.0 <= d && d * d == v.x * v.x + v.y * v.y
  }

  /** `0.00001f`, below which `MoveBox` does not move at all. */
  const MIN_MOVE: real := 0.00001

  /** One pass of the loop body of `MoveBox`: the tentative position, and
      the y-then-x reverts when the box collides there. */
  method SubStep(pos: Vec, vel: Vec, size: Vec, elasticity: real, fraction: real, blocked: (real, real) -> bool)
    returns (newPos: Vec, newVel: Vec)
    ensures (newPos, newVel) == BoxStep(pos, vel, size, elasticity, fraction, blocked)
  {
    newPos := pos.Plus(vel.Times(fraction));
    newVel := vel;
    if TestBox(newPos, size, blocked) {
      var hits := 0;
      if TestBox(Vec(pos.x, newPos.y), size, blocked) {
        newPos := Vec(newPos.x, pos.y);
        newVel := Vec(newVel.x, Rebound(newVel.y, elasticity));
        hits := hits + 1;
      }
      if TestBox(Vec(newPos.x, pos.y), size, blocked) {
        newPos := Vec(pos.x, newPos.y);
        newVel := Vec(Rebound(newVel.x, elasticity), newVel.y);
        hits := hits + 1;
      }
      if hits == 0 {
        newPos := Vec(newPos.x, pos.y);
        newVel := Vec(newVel.x, Rebound(newVel.y, elasticity));
        newPos := Vec(pos.x, newPos.y);
        newVel := Vec(Rebound(newVel.x, elasticity), newVel.y);
      }
    }
  }

  /** `MoveBox`. `distance` stands for `length(Vel)`, which needs a square
      root; `(int)Distance` is its floor. */
  method MoveBox(pos: Vec, vel: Vec, size: Vec, elasticity: real, distance: real, blocked: (real, real) -> bool)
    returns (newPos: Vec, newVel: Vec)
    requires IsLength(distance, vel)
    ensures distance <= MIN_MOVE ==> newPos == pos && newVel == vel
    ensures distance > MIN_MOVE ==>
      (newPos, newVel) == BoxSteps(pos, vel, size, elasticity, 1.0 / (distance.Floor + 1) as real, blocked, distance.Floor + 1)
    ensures !TestBox(pos, size, blocked) ==> !TestBox(newPos, size, blocked)
    ensures 0.0 <= elasticity <= 1.0 ==> NoFaster(newVel, vel)
  {
    newPos := pos;
    newVel := vel;
    var max := distance.Floor;
    if distance > MIN_MOVE {
      var fraction := 1.0 / (max + 1) as real;
      var i := 0;
      while i <= max
        invariant 0 <= i <= max + 1
        invariant (newPos, newVel) == BoxSteps(pos, vel, size, elasticity, fraction, blocked, i)
        invariant !TestBox(pos, size, blocked) ==> !TestBox(newPos, size, blocked)
        invariant 0.0 <= elasticity <= 1.0 ==> NoFaster(newVel, vel)
      {
        if !TestBox(pos, size, blocked) {
          BoxStepStaysClear(newPos, newVel, size, elasticity, fraction, blocked);
        }
        if 0.0 <= elasticity <= 1.0 {
          BoxStepDamps(newPos, newVel, size, elasticity, fraction, blocked);
        }
        newPos, newVel := SubStep(newPos, newVel, size, elasticity, fraction, blocked);
        i := i + 1;
      }
    }
  }

  /** The collision world: the game layer's tile indices (`m_pTiles`, which
      `Init` rewrites in place inside the map's data), its size, the zone
      group's layers (`None` when the map has no zone group) and the zone
      lists built so far. */
  class CCollision {
    const codes: Codes
    var tiles: array<bv8>
    var width: int
    var height: int
    var zoneGroup: Option<seq<Layer>>
    var zones: seq<seq<int>>

    ghost predicate Valid()
      reads this
    {
      width >= 1 && height >= 1 && width * height <= tiles.Length
    }

    /** Every zone list names existing, well-formed layers of the zone group. */
    ghost predicate ZonesInRange()
      reads this
    {
      zoneGroup.Some? && forall h :: 0 <= h < |zones| ==> ListInRange(zoneGroup.value, zones[h])
    }

    /** `CCollision()`: no map yet. */
    constructor (codes: Codes)
      ensures this.codes == codes && width == 0 && height == 0 && tiles.Length == 0
      ensures zoneGroup == None && zones == []
    {
      this.codes := codes;
      tiles := new bv8[0];
      width := 0;
      height := 0;
      zoneGroup := None;
      zones := [];
    }

    /** `Init`: takes the game layer and rewrites each of its
        `width * height` tile indices in place. */
    method Init(gameTiles: array<bv8>, w: int, h: int, group: Option<seq<Layer>>)
      requires w * h <= gameTiles.Length
      modifies this, gameTiles
      ensures tiles == gameTiles && width == w && height == h && zoneGroup == group && zones == old(zones)
      ensures forall i :: 0 <= i < w * h ==> tiles[i] == Classify(codes, old(gameTiles[i]))
      ensures forall i :: 0 <= i < gameTiles.Length && !(0 <= i < w * h) ==> tiles[i] == old(gameTiles[i])
      ensures w >= 1 && h >= 1 ==> Valid()
    {
      tiles := gameTiles;
      width := w;
      height := h;
      zoneGroup := group;
      var i := 0;
      while i < w * h
        invariant i == 0 || 0 < i <= w * h
        invariant forall j :: 0 <= j < i ==> gameTiles[j] == Classify(codes, old(gameTiles[j]))
        invariant forall j :: i <= j < gameTiles.Length ==> gameTiles[j] == old(gameTiles[j])
        invariant tiles == gameTiles && width == w && height == h && zoneGroup == group && zones == old(zones)
      {
        var index := gameTiles[i];
        if index as int > 128 {
          i := i + 1;
          continue;
        }
        if index == codes.tileDeath {
          gameTiles[i] := codes.colDeath;
        } else if index == codes.tileSolid {
          gameTiles[i] := codes.colSolid;
        } else if index == codes.tileNoHook {
          gameTiles[i] := codes.colSolid | codes.colNoHook;
        } else {
          gameTiles[i] := 0;
        }
        i := i + 1;
      }
    }

    /** `GetTile(x, y)`: the clamped cell's index, 0 for indices above 128. */
    function GetTile(x: int, y: int): (r: bv8)
      reads this, tiles
      requires Valid()
      ensures r as int <= 128
      ensures var v := tiles[CellIndex(x, y, width, height)]; r == v || (r == 0 && v as int > 128)
    {
      ReadIndex(tiles[CellIndex(x, y, width, height)])
    }

    /** `IsTileSolid(x, y)`: the COLFLAG_SOLID bit of `GetTile`. */
    function IsTileSolid(x: int, y: int): (r: bool)
      reads this, tiles
      requires Valid()
      ensures r ==> GetTile(x, y) != 0
    {
      GetTile(x, y) & codes.colSolid != 0
    }

    /** `GetZoneHandle(pName)`: -1 without a zone group; otherwise appends
        the list of the group's layers called `name` and returns its
        handle. */
    method GetZoneHandle(name: string) returns (handle: int)
      requires zoneGroup.Some? ==> forall l :: 0 <= l < |zoneGroup.value| ==> LayerOk(zoneGroup.value[l])
      requires zoneGroup.Some? ==> ZonesInRange()
      modifies this
      ensures zoneGroup == old(zoneGroup) && tiles == old(tiles) && width == old(width) && height == old(height)
      ensures zoneGroup.None? ==> handle == -1 && zones == old(zones)
      ensures zoneGroup.Some? ==>
        && handle == |old(zones)|
        && zones == old(zones) + [MatchingLayers(zoneGroup.value, name, |zoneGroup.value|)]
        && ZonesInRange()
    {
      if zoneGroup.None? {
        return -1;
      }
      var layers := zoneGroup.value;
      handle := |zones|;
      var list: seq<int> := [];
      var l := 0;
      while l < |layers|
        invariant 0 <= l <= |layers|
        invariant list == MatchingLayers(layers, name, l)
        invariant ListInRange(layers, list)
      {
        var layer := layers[l];
        if layer.TileLayer? {
          if layer.name == name {
            list := list + [l];
          }
        } else if layer.QuadLayer? {
          if layer.name == name {
            list := list + [l];
          }
        }
        l := l + 1;
      }
      zones := zones + [list];
    }

    /** `GetZoneValueAt(ZoneHandle, x, y)` at the rounded point `(rx, ry)`
        (`round_to_int` is not part of this model): 0 without a zone group
        or for an unknown handle, otherwise the last value written by the
        zone's layers in list order. */
    method GetZoneValueAt(zoneHandle: int, rx: int, ry: int, inQuad: (int, int) -> bool) returns (index: int)
      requires zoneGroup.Some? ==> ZonesInRange()
      ensures zoneGroup.None? || !(0 <= zoneHandle < |zones|) ==> index == 0
      ensures zoneGroup.Some? && 0 <= zoneHandle < |zones| ==>
        index == LastOr(ZoneWrites(zoneGroup.value, zones[zoneHandle], |zones[zoneHandle]|, rx, ry, inQuad), 0)
    {
      if zoneGroup.None? {
        return 0;
      }
      if zoneHandle < 0 || zoneHandle >= |zones| {
        return 0;
      }
      var layers := zoneGroup.value;
      var list := zones[zoneHandle];
      assert ListInRange(layers, list);
      index := 0;
      for i := 0 to |list|
        invariant index == LastOr(ZoneWrites(layers, list, i, rx, ry, inQuad), 0)
      {
        ZoneValueStep(layers, list, i, rx, ry, inQuad);
        assert 0 <= list[i] < |layers| && LayerOk(layers[list[i]]);
        index := LayerValue(layers[list[i]], list[i], rx, ry, inQuad, index);
      }
    }
  }

  /** The point at the centre of cell (i, j) reads that cell. */
  lemma GetTileAtCellCentre(c: CCollision, i: int, j: int)
    requires c.Valid() && 0 <= i < c.width && 0 <= j < c.height
    ensures 0 <= j * c.width + i < c.width * c.height
    ensures c.GetTile(32 * i + 16, 32 * j + 16) == ReadIndex(c.tiles[j * c.width + i])
  {
    CellIndexInRange(i, j, c.width, c.height);
    CellOfCentre(i, c.width);
    CellOfCentre(j, c.height);
    assert CellIndex(32 * i + 16, 32 * j + 16, c.width, c.height) == j * c.width + i;
  }

  /** On a grid that `Init` reclassified, a point is solid exactly when
      the raw tile of its cell was TILE_SOLID or TILE_NOHOOK. */
  lemma IsTileSolidOnClassifiedGrid(c: CCollision, x: int, y: int, raw: bv8)
    requires c.Valid() && WellFormed(c.codes)
    requires c.tiles[CellIndex(x, y, c.width, c.height)] == Classify(c.codes, raw)
    ensures c.IsTileSolid(x, y) <==> raw == c.codes.tileSolid || raw == c.codes.tileNoHook
  {
    SolidAfterClassify(c.codes, raw);
  }
}
