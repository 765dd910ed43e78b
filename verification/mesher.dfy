/** The glyph mesher: one unit quad per unpacked bit, laid out on a grid
    seven cells wide, coloured by the bit. Positions are exact reals; the
    renderer's `f32` rounding is not modelled. */
module Mesher {
  import opened Wrappers
  import opened Words

  /** Cells per grid row. */
  const Columns: nat := 7

  /** Bits whose quad `square_at` can place: its `u16` subtraction
      `7 - i / 7` needs `i / 7 <= 7`. */
  const MaxQuads: nat := 56

  /** The two colours a pixel can take. */
  datatype Colour = Ink | Paper

  datatype Rgb = Rgb(r: real, g: real, b: real)

  /** `BLACK` for ink and `WHITE` (a dark blue, despite its name) for paper. */
  function RgbOf(c: Colour): Rgb {
    match c
    case Ink => Rgb(0.0, 0.0, 0.0)
    case Paper => Rgb(0.1, 0.2, 0.3)
  }

  /** The colour `vertices_indices` picks for a bit: ink exactly for 1. */
  function ColourOf(bit: Byte): Colour {
    if bit == 1 then Ink else Paper
  }

  datatype Point = Point(x: real, y: real)

  datatype Vertex = Vertex(pos: Point, colour: Colour)

  /** A vertex buffer and the `u16` index buffer drawn from it as a
      triangle list. */
  datatype Mesh = Mesh(vertices: seq<Vertex>, indices: seq<U16>)

  /** The cell of bit `i`: column `i mod 7` and the flipped row `7 - i / 7`,
      so that the first bits land on the top row. */
  function Column(i: nat): int {
    i % Columns
  }

  function FlippedRow(i: nat): int {
    7 - i / Columns
  }

  /** The bit whose cell is at column `col` and flipped row `row`. */
  function CellIndex(col: int, row: int): int {
    Columns * (7 - row) + col
  }

  /** A grid line as a device coordinate: shift by 3.5, then scale by 1/3.5,
      so that grid lines 0 and 7 land on -1 and 1. */
  function Device(g: int): real {
    (g as real - 3.5) / 3.5
  }

  /** Corner `k` of a cell, going right along the top edge, then down, then
      back left: grid offsets (0, 0), (1, 0), (1, -1), (0, -1). */
  function Corner(i: nat, k: nat): Point
    requires k < 4
  {
    var dx := if k == 1 || k == 2 then 1 else 0;
    var dy := if k == 2 || k == 3 then 1 else 0;
    Point(Device(Column(i) + dx), Device(FlippedRow(i) - dy))
  }

  /** The quad of bit `i` in colour `c`: its four corners in order. */
  function QuadVertices(i: nat, c: Colour): seq<Vertex> {
    [Vertex(Corner(i, 0), c), Vertex(Corner(i, 1), c), Vertex(Corner(i, 2), c), Vertex(Corner(i, 3), c)]
  }

  /** The quad of bit `i` of a bit string, in that bit's colour. */
  function BitQuad(bits: seq<Byte>, i: nat): seq<Vertex>
    requires i < |bits|
  {
    QuadVertices(i, ColourOf(bits[i]))
  }

  /** The six indices of quad `i`: the triangles (0, 1, 2) and (2, 3, 0) of
      its four vertices, which are vertices `4 * i` to `4 * i + 3`. */
  function QuadIndices(i: nat): seq<int> {
    [4 * i, 4 * i + 1, 4 * i + 2, 4 * i + 2, 4 * i + 3, 4 * i]
  }

  /** `square_at`: the quad of bit `i` in colour `c`. The positions are
      computed as the renderer does, in device space, and they are the
      corners of the cell of bit `i`. */
  function SquareAt(i: nat, c: Colour): (q: Mesh)
    requires i < MaxQuads
    ensures q.vertices == QuadVertices(i, c)
    ensures q.indices == QuadIndices(i)
  {
    var x := (i % 7) as real - 3.5;
    var y := (7 - i / 7) as real - 3.5;
    var xd := x + 1.0;
    var yd := y - 1.0;
    var f := 3.5;
    Mesh([Vertex(Point(x / f, y / f), c),
          Vertex(Point(xd / f, y / f), c),
          Vertex(Point(xd / f, yd / f), c),
          Vertex(Point(x / f, yd / f), c)],
         [4 * i, 4 * i + 1, 4 * i + 2, 4 * i + 2, 4 * i + 3, 4 * i])
  }

  /** `square_at` with the renderer's own integer semantics: the position
      arrives as `usize`, is cast to `i32` and then to `u16` (keeping its
      low 16 bits), and an overflowing `u16` subtraction or product aborts
      (`None`). */
  function SquareAtChecked(i: nat, c: Colour): (r: Option<Mesh>)
    ensures r.None? <==> Low16(i) >= MaxQuads
    ensures r.Some? ==> r.value == SquareAt(Low16(i), c)
  {
    var j := Low16(i);
    if j / 7 > 7 then None
    else if 4 * j + 3 >= 0x1_0000 then None
    else Some(SquareAt(j, c))
  }

  /** The vertex buffer holds the quads of bits `0 .. n-1`, four vertices
      each, in bit order. */
  predicate VertexLayout(bits: seq<Byte>, vs: seq<Vertex>, n: nat) {
    n <= |bits| && |vs| == 4 * n &&
    forall i :: 0 <= i < n ==> vs[4 * i .. 4 * i + 4] == BitQuad(bits, i)
  }

  /** The index buffer holds the six indices of quads `0 .. n-1` in order. */
  predicate IndexLayout(ix: seq<U16>, n: nat) {
    |ix| == 6 * n &&
    forall i :: 0 <= i < n ==> ix[6 * i .. 6 * i + 6] == QuadIndices(i)
  }

  /** Appending the quad of bit `n` to a mesh of bits `0 .. n-1` gives the
      mesh of bits `0 .. n`. */
  lemma AppendQuad(bits: seq<Byte>, m: Mesh, q: Mesh, n: nat)
    requires VertexLayout(bits, m.vertices, n) && IndexLayout(m.indices, n) && n < |bits|
    requires q.vertices == BitQuad(bits, n) && q.indices == QuadIndices(n)
    ensures VertexLayout(bits, m.vertices + q.vertices, n + 1)
    ensures IndexLayout(m.indices + q.indices, n + 1)
  {
    var vs := m.vertices + q.vertices;
    var ix := m.indices + q.indices;
    forall i | 0 <= i < n + 1
      ensures vs[4 * i .. 4 * i + 4] == BitQuad(bits, i)
      ensures ix[6 * i .. 6 * i + 6] == QuadIndices(i)
    {
      if i < n {
        assert vs[4 * i .. 4 * i + 4] == m.vertices[4 * i .. 4 * i + 4];
        assert ix[6 * i .. 6 * i + 6] == m.indices[6 * i .. 6 * i + 6];
      } else {
        assert vs[4 * i .. 4 * i + 4] == q.vertices;
        assert ix[6 * i .. 6 * i + 6] == q.indices;
      }
    }
  }

  /** The loop of `vertices_indices` after its first `n` rounds: the quads of
      bits `0 .. n-1` appended in bit order. */
  function Quads(bits: seq<Byte>, n: nat): (m: Mesh)
    requires n <= |bits| && n <= MaxQuads
    ensures VertexLayout(bits, m.vertices, n)
    ensures IndexLayout(m.indices, n)
    decreases n
  {
    if n == 0 then Mesh([], [])
    else
      var m := Quads(bits, n - 1);
      var q := SquareAt(n - 1, ColourOf(bits[n - 1]));
      AppendQuad(bits, m, q, n - 1);
      Mesh(m.vertices + q.vertices, m.indices + q.indices)
  }

  /** The same loop with `square_at`'s native arithmetic: `None` when some
      round aborts. */
  function QuadsChecked(bits: seq<Byte>, n: nat): (r: Option<Mesh>)
    requires n <= |bits|
  {
    if n == 0 then Some(Mesh([], []))
    else
      match QuadsChecked(bits, n - 1)
      case None => None
      case Some(m) =>
        match SquareAtChecked(n - 1, ColourOf(bits[n - 1]))
        case None => None
        case Some(q) => Some(Mesh(m.vertices + q.vertices, m.indices + q.indices))
  }

  /** One round of the native loop, below bit 56, does what the exact one
      does. */
  lemma CheckedRound(bits: seq<Byte>, n: nat)
    requires 0 < n <= MaxQuads && n <= |bits|
    requires QuadsChecked(bits, n - 1) == Some(Quads(bits, n - 1))
    ensures QuadsChecked(bits, n) == Some(Quads(bits, n))
  {
    var c := ColourOf(bits[n - 1]);
    assert Low16(n - 1) == n - 1;
    assert SquareAtChecked(n - 1, c) == Some(SquareAt(n - 1, c));
  }

  /** The native round for bit 56 aborts, whatever came before it. */
  lemma CheckedAbort(bits: seq<Byte>, n: nat)
    requires n == MaxQuads + 1 && n <= |bits|
    ensures QuadsChecked(bits, n).None?
  {
    assert Low16(n - 1) == MaxQuads;
    assert SquareAtChecked(n - 1, ColourOf(bits[n - 1])).None?;
  }

  /** The native loop aborts exactly when it reaches bit 56, and otherwise
      builds the same mesh as the exact one. */
  lemma {:induction false} QuadsCheckedAgrees(bits: seq<Byte>, n: nat)
    requires n <= |bits|
    ensures QuadsChecked(bits, n).None? <==> n > MaxQuads
    ensures n <= MaxQuads ==> QuadsChecked(bits, n) == Some(Quads(bits, n))
  {
    if n > 0 {
      QuadsCheckedAgrees(bits, n - 1);
      if n <= MaxQuads {
        CheckedRound(bits, n);
      } else if n - 1 == MaxQuads {
        CheckedAbort(bits, n);
      }
    }
  }

  /** Every placeable bit has a cell of the grid (seven columns, flipped
      rows 0 to 7), and the cell determines the bit. */
  lemma CellOfBit(i: nat)
    requires i < MaxQuads
    ensures 0 <= Column(i) < Columns && 0 <= FlippedRow(i) <= 7
    ensures CellIndex(Column(i), FlippedRow(i)) == i
  {
  }

  /** Every cell of the grid is the cell of exactly one placeable bit. */
  lemma BitOfCell(col: int, row: int)
    requires 0 <= col < Columns && 0 <= row <= 7
    ensures 0 <= CellIndex(col, row) < MaxQuads
    ensures Column(CellIndex(col, row)) == col && FlippedRow(CellIndex(col, row)) == row
  {
    var i := CellIndex(col, row);
    assert i == 7 * (7 - row) + col;
    assert i / 7 == 7 - row;
  }

  predicate InView(p: Point) {
    -1.0 <= p.x <= 1.0 && -1.0 <= p.y <= 1.0
  }

  /** The 7-by-7 grid exactly fills the device square: quad `i` lies inside
      it iff `i < 49`; the row of bits 49 to 55 falls below it. */
  lemma QuadInView(i: nat)
    requires i < MaxQuads
    ensures (forall k :: 0 <= k < 4 ==> InView(Corner(i, k))) <==> i < 49
  {
    if i >= 49 {
      assert FlippedRow(i) == 0;
      assert Corner(i, 2).y == Device(-1);
      assert !InView(Corner(i, 2));
    }
  }

  /** Twice the signed area of a triangle: negative when it winds clockwise
      with y pointing up. */
  function Cross(p: Point, q: Point, r: Point): real {
    (q.x - p.x) * (r.y - p.y) - (q.y - p.y) * (r.x - p.x)
  }

  /** Both triangles of a quad wind clockwise and cover half the cell each. */
  lemma QuadWinding(i: nat)
    requires i < MaxQuads
    ensures Cross(Corner(i, 0), Corner(i, 1), Corner(i, 2)) == -4.0 / 49.0
    ensures Cross(Corner(i, 2), Corner(i, 3), Corner(i, 0)) == -4.0 / 49.0
  {
    var a := Corner(i, 0);
    var b := Corner(i, 1);
    var c := Corner(i, 2);
    var d := Corner(i, 3);
    var u := 2.0 / 7.0;
    assert b.x - a.x == u && b.y - a.y == 0.0;
    assert c.x - a.x == u && c.y - a.y == -u;
    assert d.x - c.x == -u && d.y - c.y == 0.0;
    assert a.x - c.x == -u && a.y - c.y == u;
  }

  /** In a laid-out vertex buffer, vertex `4 * i + k` is corner `k` of the
      cell of bit `i`, in that bit's colour. */
  lemma LayoutCorner(bits: seq<Byte>, vs: seq<Vertex>, n: nat, i: nat, k: nat)
    requires VertexLayout(bits, vs, n) && i < n && k < 4
    ensures vs[4 * i + k] == Vertex(Corner(i, k), ColourOf(bits[i]))
  {
    assert vs[4 * i .. 4 * i + 4] == BitQuad(bits, i);
    assert vs[4 * i + k] == vs[4 * i .. 4 * i + 4][k];
  }

  /** In a laid-out index buffer, index `6 * i + s` is entry `s` of quad
      `i`'s indices. */
  lemma LayoutIndex(ix: seq<U16>, n: nat, i: nat, s: nat)
    requires IndexLayout(ix, n) && i < n && s < 6
    ensures ix[6 * i + s] == QuadIndices(i)[s]
  {
    assert ix[6 * i .. 6 * i + 6] == QuadIndices(i);
    assert ix[6 * i + s] == ix[6 * i .. 6 * i + 6][s];
  }

  /** Read flat, vertex `v` of a laid-out buffer is corner `v mod 4` of the
      quad of bit `v / 4`, and all four vertices of a quad are ink, `BLACK`,
      iff its bit is 1, and paper, `WHITE` = (0.1, 0.2, 0.3), otherwise. */
  lemma LayoutVertices(bits: seq<Byte>, vs: seq<Vertex>, n: nat)
    requires VertexLayout(bits, vs, n)
    ensures forall v :: 0 <= v < |vs| ==>
      v / 4 < |bits| && vs[v].pos == Corner(v / 4, v % 4) &&
      (vs[v].colour == Ink <==> bits[v / 4] == 1) &&
      RgbOf(vs[v].colour) == (if bits[v / 4] == 1 then Rgb(0.0, 0.0, 0.0) else Rgb(0.1, 0.2, 0.3))
  {
    forall v | 0 <= v < |vs|
      ensures v / 4 < |bits| && vs[v] == Vertex(Corner(v / 4, v % 4), ColourOf(bits[v / 4]))
    {
      assert 4 * (v / 4) + v % 4 == v;
      LayoutCorner(bits, vs, n, v / 4, v % 4);
    }
  }

  /** Index `j` of a laid-out index buffer names a vertex of quad `j / 6`. */
  lemma IndexInQuad(ix: seq<U16>, n: nat, j: nat)
    requires IndexLayout(ix, n) && j < |ix|
    ensures ix[j] < 4 * n && ix[j] / 4 == j / 6
  {
    var i := j / 6;
    assert 6 * i + j % 6 == j;
    LayoutIndex(ix, n, i, j % 6);
    assert 4 * i <= ix[j] < 4 * i + 4;
  }

  /** Vertex `v` of a laid-out mesh is named by one of the six indices of
      quad `v / 4`. */
  lemma VertexNamed(ix: seq<U16>, n: nat, v: nat)
    requires IndexLayout(ix, n) && v < 4 * n
    ensures 6 * (v / 4) + 6 <= |ix| && v in ix[6 * (v / 4) .. 6 * (v / 4) + 6]
  {
    var i := v / 4;
    assert ix[6 * i .. 6 * i + 6] == QuadIndices(i);
    assert v == 4 * i + v % 4;
  }

  /** Every index of a laid-out index buffer names a vertex of the quad it
      belongs to, and every vertex of a quad is named by one of that quad's
      six indices: quads share no vertices. */
  lemma SelfContained(ix: seq<U16>, n: nat)
    requires IndexLayout(ix, n)
    ensures forall j :: 0 <= j < |ix| ==> ix[j] < 4 * n && ix[j] / 4 == j / 6
    ensures forall v :: 0 <= v < 4 * n ==> v in ix[6 * (v / 4) .. 6 * (v / 4) + 6]
  {
    forall j | 0 <= j < |ix|
      ensures ix[j] < 4 * n && ix[j] / 4 == j / 6
    {
      IndexInQuad(ix, n, j);
    }
    forall v | 0 <= v < 4 * n
      ensures v in ix[6 * (v / 4) .. 6 * (v / 4) + 6]
    {
      VertexNamed(ix, n, v);
    }
  }

  /** Triangle `t` of a laid-out mesh is the first (`t` even) or the second
      triangle of quad `t / 2`: it winds clockwise and covers half the cell. */
  lemma TriangleWinding(bits: seq<Byte>, vs: seq<Vertex>, ix: seq<U16>, n: nat, t: nat)
    requires VertexLayout(bits, vs, n) && IndexLayout(ix, n) && n <= MaxQuads && t < 2 * n
    ensures ix[3 * t] < |vs| && ix[3 * t + 1] < |vs| && ix[3 * t + 2] < |vs|
    ensures Cross(vs[ix[3 * t]].pos, vs[ix[3 * t + 1]].pos, vs[ix[3 * t + 2]].pos) == -4.0 / 49.0
  {
    var i := t / 2;
    var s := 3 * (t % 2);
    assert 3 * t == 6 * i + s;
    LayoutIndex(ix, n, i, s);
    LayoutIndex(ix, n, i, s + 1);
    LayoutIndex(ix, n, i, s + 2);
    QuadWinding(i);
    if s == 0 {
      LayoutCorner(bits, vs, n, i, 0);
      LayoutCorner(bits, vs, n, i, 1);
      LayoutCorner(bits, vs, n, i, 2);
    } else {
      LayoutCorner(bits, vs, n, i, 2);
      LayoutCorner(bits, vs, n, i, 3);
      LayoutCorner(bits, vs, n, i, 0);
    }
  }

  /** Every triangle of a laid-out mesh winds clockwise with the same area. */
  lemma LayoutWinding(bits: seq<Byte>, vs: seq<Vertex>, ix: seq<U16>, n: nat)
    requires VertexLayout(bits, vs, n) && IndexLayout(ix, n) && n <= MaxQuads
    ensures forall t :: 0 <= t < 2 * n ==>
      ix[3 * t] < |vs| && ix[3 * t + 1] < |vs| && ix[3 * t + 2] < |vs| &&
      Cross(vs[ix[3 * t]].pos, vs[ix[3 * t + 1]].pos, vs[ix[3 * t + 2]].pos) == -4.0 / 49.0
  {
    forall t | 0 <= t < 2 * n
      ensures ix[3 * t] < |vs| && ix[3 * t + 1] < |vs| && ix[3 * t + 2] < |vs|
      ensures Cross(vs[ix[3 * t]].pos, vs[ix[3 * t + 1]].pos, vs[ix[3 * t + 2]].pos) == -4.0 / 49.0
    {
      TriangleWinding(bits, vs, ix, n, t);
    }
  }
}
