/** The `Glyph` record: a packed bitmap and the two derived views the
    renderer takes of it, its bits and its mesh. */
module Glyphs {
  import opened Wrappers
  import opened Words
  import opened Bits
  import opened Mesher

  /** The longest glyph whose mesh can be built: seven bytes are 56 bits, the
      most `square_at` can place. */
  const MaxGlyphBytes: nat := 7

  datatype Glyph = Glyph(raw: seq<Byte>)

  /** `Glyph::new_empty`. */
  function NewEmpty(): Glyph {
    Glyph([])
  }

  /** `Glyph::new`: the glyph owns the given bytes unchanged. */
  function New(code: seq<Byte>): Glyph {
    Glyph(code)
  }

  /** `unpacked`: the glyph's bits, eight per byte, each 0 or 1. */
  function Unpacked(g: Glyph): (bits: seq<Byte>)
    ensures |bits| == 8 * |g.raw| && AllBits(bits)
  {
    Unpack(g.raw)
  }

  /** A glyph's bits pack back into its bytes: unpacking loses nothing. */
  lemma UnpackedPacks(g: Glyph)
    ensures Pack(Unpacked(g)) == g.raw
  {
    PackUnpack(g.raw);
  }

  /** `vertices_indices`, on the glyphs it can mesh: one quad per unpacked
      bit, in bit order, four vertices and six indices each. */
  function VerticesIndices(g: Glyph): (m: Mesh)
    requires |g.raw| <= MaxGlyphBytes
    ensures |m.vertices| == 32 * |g.raw| && |m.indices| == 48 * |g.raw|
    ensures VertexLayout(Unpacked(g), m.vertices, 8 * |g.raw|)
    ensures IndexLayout(m.indices, 8 * |g.raw|)
  {
    var bits := Unpacked(g);
    Quads(bits, |bits|)
  }

  /** Vertex `v` of a glyph's mesh is corner `v mod 4` of the cell of bit
      `v / 4`, and is ink exactly when that bit, bit `7 - (v / 4) mod 8` of
      byte `v / 32`, is set. */
  lemma GlyphVertices(g: Glyph)
    requires |g.raw| <= MaxGlyphBytes
    ensures var m := VerticesIndices(g);
      forall v :: 0 <= v < |m.vertices| ==>
        v / 32 < |g.raw| && m.vertices[v].pos == Corner(v / 4, v % 4) &&
        (m.vertices[v].colour == Ink <==> BitOf(g.raw[v / 32], 7 - (v / 4) % 8) == 1)
  {
    var bits := Unpacked(g);
    var m := VerticesIndices(g);
    LayoutVertices(bits, m.vertices, |bits|);
    forall v | 0 <= v < |m.vertices|
      ensures v / 32 < |g.raw| && bits[v / 4] == BitOf(g.raw[v / 32], 7 - (v / 4) % 8)
    {
      VertexByte(g.raw, Unpack(g.raw), v);
    }
  }

  /** The bit of vertex `v` is bit `7 - (v / 4) mod 8` of byte `v / 32`. */
  lemma VertexByte(raw: seq<Byte>, bits: seq<Byte>, v: nat)
    requires Unpacks(raw, bits) && v < 32 * |raw|
    ensures v / 32 < |raw| && v / 4 < |bits|
    ensures bits[v / 4] == BitOf(raw[v / 32], 7 - (v / 4) % 8)
  {
    QuarterThenEighth(v);
    assert bits[v / 4] == BitOf(raw[(v / 4) / 8], 7 - (v / 4) % 8);
  }

  /** Bit `v / 4` lives in byte `v / 32`. */
  lemma QuarterThenEighth(v: nat)
    ensures (v / 4) / 8 == v / 32
  {
    assert v == 32 * ((v / 4) / 8) + 4 * ((v / 4) % 8) + v % 4;
  }

  /** Every index of a glyph's mesh names a vertex of its own quad. */
  lemma GlyphIndices(g: Glyph)
    requires |g.raw| <= MaxGlyphBytes
    ensures var m := VerticesIndices(g);
      forall j :: 0 <= j < |m.indices| ==> m.indices[j] < |m.vertices| && m.indices[j] / 4 == j / 6
  {
    var m := VerticesIndices(g);
    SelfContained(m.indices, 8 * |g.raw|);
  }

  /** `vertices_indices` with the renderer's native `u16` arithmetic: it
      aborts exactly on glyphs longer than seven bytes, and otherwise agrees
      with the exact model. */
  function VerticesIndicesChecked(g: Glyph): (r: Option<Mesh>)
    ensures r.None? <==> |g.raw| > MaxGlyphBytes
    ensures r.Some? ==> |g.raw| <= MaxGlyphBytes && r.value == VerticesIndices(g)
  {
    var bits := Unpacked(g);
    QuadsCheckedAgrees(bits, |bits|);
    QuadsChecked(bits, |bits|)
  }

  /** Every triangle of a glyph's mesh winds clockwise and covers half a
      cell. */
  lemma GlyphWinding(g: Glyph)
    requires |g.raw| <= MaxGlyphBytes
    ensures var m := VerticesIndices(g);
      forall t :: 0 <= t < |m.indices| / 3 ==>
        m.indices[3 * t] < |m.vertices| && m.indices[3 * t + 1] < |m.vertices| &&
        m.indices[3 * t + 2] < |m.vertices| &&
        Cross(m.vertices[m.indices[3 * t]].pos, m.vertices[m.indices[3 * t + 1]].pos,
              m.vertices[m.indices[3 * t + 2]].pos) == -4.0 / 49.0
  {
    var m := VerticesIndices(g);
    LayoutWinding(Unpacked(g), m.vertices, m.indices, 8 * |g.raw|);
  }

  /** The empty glyph has no bits and an empty mesh. */
  lemma EmptyGlyph()
    ensures Unpacked(NewEmpty()) == []
    ensures VerticesIndices(NewEmpty()) == Mesh([], [])
  {
  }

  /** The glyph the renderer draws, `0b10000010`, unpacks to its eight bits. */
  lemma DriverBits(g: Glyph)
    requires g == New([0x82])
    ensures Unpacked(g) == [1, 0, 0, 0, 0, 0, 1, 0]
  {
    DriverByte(g.raw[0]);
  }

  /** The colour the renderer's glyph gives quad `i`: ink for its two set
      bits, 0 and 6. */
  function DriverColour(i: nat): Colour {
    if i == 0 || i == 6 then Ink else Paper
  }

  /** Its mesh has eight quads, the first and the seventh ink on the top
      row, the rest paper. */
  lemma DriverGlyph(g: Glyph)
    requires g == New([0x82])
    ensures var m := VerticesIndices(g);
      |m.vertices| == 32 && |m.indices| == 48 &&
      forall i :: 0 <= i < 8 ==> m.vertices[4 * i .. 4 * i + 4] == QuadVertices(i, DriverColour(i))
  {
    var m := VerticesIndices(g);
    var bits := Unpacked(g);
    DriverBits(g);
    forall i | 0 <= i < 8
      ensures m.vertices[4 * i .. 4 * i + 4] == QuadVertices(i, DriverColour(i))
    {
      assert m.vertices[4 * i .. 4 * i + 4] == BitQuad(bits, i);
      DriverBit(bits, i);
    }
  }

  /** Bit `i` of the renderer's glyph has the colour `DriverColour(i)`. */
  lemma DriverBit(bits: seq<Byte>, i: nat)
    requires bits == [1, 0, 0, 0, 0, 0, 1, 0] && i < 8
    ensures ColourOf(bits[i]) == DriverColour(i)
  {
  }

  /** The first quad of any glyph starts at the top-left corner of the
      device square, and the seventh at the top of the last column. */
  lemma TopRowCorners(g: Glyph)
    requires 1 <= |g.raw| <= MaxGlyphBytes
    ensures var m := VerticesIndices(g);
      |m.vertices| >= 32 &&
      m.vertices[0].pos == Point(-1.0, 1.0) &&
      m.vertices[24].pos == Point(5.0 / 7.0, 1.0)
  {
    var m := VerticesIndices(g);
    LayoutCorner(Unpacked(g), m.vertices, 8 * |g.raw|, 0, 0);
    LayoutCorner(Unpacked(g), m.vertices, 8 * |g.raw|, 6, 0);
    assert Corner(0, 0) == Point(-1.0, 1.0);
    assert Corner(6, 0) == Point(5.0 / 7.0, 1.0);
  }
}
