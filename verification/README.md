# Glyph mesher, modelled in Dafny

The program draws a bitmap glyph with a GPU. A `Glyph` owns a packed byte
string. `unpacked` expands the bytes into one 0/1 value per pixel, most
significant bit of each byte first. `vertices_indices` turns every pixel
into a unit quad:

- pixel `i` sits in column `i mod 7` and flipped row `7 - i / 7`;
- the quad's corners are mapped to device space by `(g - 3.5) / 3.5`;
- the quad is black for a 1 and `WHITE` (0.1, 0.2, 0.3) for a 0;
- the quad contributes four vertices and six `u16` indices, forming the
  triangles (0, 1, 2) and (2, 3, 0).

The model has five modules:

- `Wrappers`: `Option`.
- `Words`: `u8`/`u16` as bounded integers, the truncating shift and casts,
  and bit facts.
- `Bits`: `as_bits`, `unpack` and their inverse `Pack`.
- `Mesher`: colours, the grid, `square_at` and the quad loop.
- `Glyphs`: the `Glyph` record and its entry points.

Positions are exact rationals.

A debug build panics in `square_at` on the `u16` subtraction `7 - i / 7`
once `i / 7` exceeds 7. So `vertices_indices` is not total: it is defined
only on glyphs of at most seven bytes.
`VerticesIndices` requires at most seven bytes. `VerticesIndicesChecked` is
defined on every glyph: it returns `None` exactly on the longer ones.

A second point is shown about the code as written. The grid has eight rows
for 56 bits, and the row of bits 49 to 55 falls below the device square
(`QuadInView`).

## Model

| member | source | states |
|---|---|---|
| Words.TopBitIsBit7 | src/main.rs:60 | the `b >= 128` test on a `u8` is exactly bit 7 of `b` |
| Words.ShiftMovesBit | src/main.rs:65 | the truncating `b << 1` moves bit `n` of `b` to bit `n + 1` for every `n < 7`; only bit 7 is lost |
| Words.Low16 | src/main.rs:71 | the `as i32 as u16` cast (its `as i32` half is at src/main.rs:44) keeps every value below 2^16 unchanged |
| Bits.ShiftOut | src/main.rs:58-67 | with `times` rounds of the loop left, exactly `times` values are emitted, value `k` being bit `7 - k` of the byte |
| Bits.AsBits | src/main.rs:55-69 | `as_bits` yields eight values, each 0 or 1, value `k` being bit `7 - k` of the byte (most significant first) |
| Bits.PrefixValue | src/main.rs:59-67 | loop invariant: the first `m` emitted bits, read most significant first, are the byte shifted right by `8 - m` |
| Bits.AsBitsRoundTrip | src/main.rs:55-69 | reading the eight bits back gives the byte: `as_bits` loses no information |
| Bits.ByteOfRoundTrip | src/main.rs:55-69 | every string of eight 0/1 values is `as_bits` of the byte it spells: `as_bits` reaches every bit pattern |
| Bits.Unpack | src/main.rs:50-54 | `unpack` yields eight 0/1 values per byte, and value `p` is bit `7 - p mod 8` of byte `p / 8` |
| Bits.UnpacksCons | src/main.rs:51-53 | the first byte's bits followed by the remaining bytes' bits spell the whole byte string, in `flat_map` order |
| Bits.UnpackAppend | src/main.rs:50-54 | unpacking a concatenation unpacks each part in turn |
| Bits.PackUnpack | src/main.rs:50-54 | packing the unpacked bits restores the bytes: `unpack` is injective |
| Bits.UnpackPack | src/main.rs:50-54 | every 0/1 string whose length is a multiple of 8 is the unpacking of some byte string |
| Bits.DriverByte | src/main.rs:100 | the byte `0b10000010` unpacks to `[1, 0, 0, 0, 0, 0, 1, 0]` |
| Mesher.SquareAt | src/main.rs:70-83 | the four computed positions are the corners (0, 0), (1, 0), (1, -1), (0, -1) of the cell of bit `i`, mapped to device space; all four vertices have colour `c`; the indices are the triangles (0, 1, 2) and (2, 3, 0) of vertices `4i .. 4i+3` |
| Mesher.SquareAtChecked | src/main.rs:70-73 | with the native `u16` arithmetic, `square_at` aborts exactly when the low 16 bits of `i` are at least 56; otherwise it builds the exact quad |
| Mesher.AppendQuad | src/main.rs:44-46 | appending the quad of bit `n` to the mesh of bits `0 .. n-1` gives the mesh of bits `0 .. n` |
| Mesher.Quads | src/main.rs:40-48 | after `n` rounds of the loop, the vertex buffer holds the quads of bits `0 .. n-1` in bit order, each in its bit's colour; the index buffer holds each quad's six indices in the same order |
| Mesher.CheckedRound | src/main.rs:43-46 | below bit 56, one round of the native loop does what the exact round does |
| Mesher.CheckedAbort | src/main.rs:73 | the native round for bit 56 aborts, on the `7 - i / 7` underflow |
| Mesher.QuadsCheckedAgrees | src/main.rs:40-48 | the native loop aborts exactly when it has more than 56 bits to place; otherwise it builds the same mesh as the exact loop |
| Mesher.CellOfBit | src/main.rs:72-73 | every bit below 56 has a cell with column 0..6 and flipped row 0..7, and the cell determines the bit |
| Mesher.BitOfCell | src/main.rs:72-73 | every cell of the 7-by-8 grid is the cell of exactly one bit below 56 |
| Mesher.QuadInView | src/main.rs:72-81 | quad `i` lies inside the device square [-1, 1]^2 exactly when `i < 49` |
| Mesher.QuadWinding | src/main.rs:77-82 | both triangles of a quad wind clockwise and each covers half a cell (signed double area -4/49) |
| Mesher.LayoutCorner | src/main.rs:40-48 | in a laid-out vertex buffer, vertex `4i + k` is corner `k` of the cell of bit `i`, in that bit's colour |
| Mesher.LayoutIndex | src/main.rs:82 | in a laid-out index buffer, index `6i + s` is entry `s` of quad `i`'s six indices |
| Mesher.LayoutVertices | src/main.rs:25-46 | vertex `v` is corner `v mod 4` of the cell of bit `v / 4`; it is ink (`BLACK` = (0, 0, 0)) iff that bit is 1, and paper (`WHITE` = (0.1, 0.2, 0.3)) otherwise |
| Mesher.IndexInQuad | src/main.rs:82 | index `j` names a vertex of quad `j / 6`, below `4n` |
| Mesher.VertexNamed | src/main.rs:82 | every vertex of quad `i` is named among quad `i`'s six indices |
| Mesher.SelfContained | src/main.rs:82 | every index stays inside its own quad and every vertex is used: quads share no vertices |
| Mesher.TriangleWinding | src/main.rs:77-82 | triangle `t` of a laid-out mesh winds clockwise and covers half a cell |
| Mesher.LayoutWinding | src/main.rs:77-82 | every triangle of a laid-out mesh winds clockwise and covers half a cell |
| Glyphs.Unpacked | src/main.rs:37-39 | a glyph's bits number eight per byte, each 0 or 1 |
| Glyphs.UnpackedPacks | src/main.rs:37-39 | a glyph's bits pack back into its bytes |
| Glyphs.VerticesIndices | src/main.rs:40-48 | a glyph of at most seven bytes gets 32 vertices and 48 indices per byte, laid out as one quad per unpacked bit in bit order |
| Glyphs.GlyphVertices | src/main.rs:40-48 | vertex `v` is corner `v mod 4` of the cell of bit `v / 4`, and it is ink exactly when bit `7 - (v / 4) mod 8` of byte `v / 32` is set |
| Glyphs.GlyphIndices | src/main.rs:40-48 | every index of a glyph's mesh names a vertex of its own quad |
| Glyphs.VerticesIndicesChecked | src/main.rs:40-48 | with native `u16` arithmetic, meshing aborts exactly on glyphs longer than seven bytes, and otherwise yields the exact mesh |
| Glyphs.GlyphWinding | src/main.rs:40-48 | every triangle of a glyph's mesh winds clockwise and covers half a cell |
| Glyphs.EmptyGlyph | src/main.rs:31-33 | the empty glyph has no bits and an empty mesh |
| Glyphs.DriverBits | src/main.rs:100-102 | the rendered glyph `[0b10000010]` unpacks to `[1, 0, 0, 0, 0, 0, 1, 0]` |
| Glyphs.DriverGlyph | src/main.rs:100-102 | its mesh has 32 vertices and 48 indices; quads 0 and 6 are ink and the other six are paper |
| Glyphs.TopRowCorners | src/main.rs:72-81 | the first quad of any non-empty glyph starts at the device corner (-1, 1), and the seventh at (5/7, 1) |

## Left out

- `main` (src/main.rs:86-131) is not modelled. It covers window creation, the event loop, the shader pipeline, the clear colour `CLEAR_COLOR` and the `println!` of the mesh. These are I/O and calls into the graphics library.
- The `gfx_defines!` pipeline declaration and the colour and depth formats (src/main.rs:9-22) are not modelled. The `Vertex` shape is kept as a position and a colour. `RgbOf` maps the colour to the `BLACK`/`WHITE` constants.
- `f32` rounding is not modelled. Positions are exact rationals `(g - 3.5) / 3.5`. The `f32` values are their nearest floats.
- Release builds, where the `u16` operations wrap silently, are not modelled. Only the debug-build abort on `7 - i / 7` is modelled, as `None` in `SquareAtChecked`, `QuadsChecked` and `VerticesIndicesChecked`.
- Glyphs.VerticesIndices: the exact mesh is defined only for glyphs of at most seven bytes, the ones the code can mesh. Longer glyphs are covered by `VerticesIndicesChecked`.
- `Glyph::new_empty` and `Glyph::new` (src/main.rs:31-36) are the constructors `NewEmpty` and `New` and carry no contract of their own. `EmptyGlyph` and `DriverBits` state facts about them.
- `QuadsChecked` carries no contract of its own. `QuadsCheckedAgrees` relates it to `Quads`.
- `Words.TopBit` models the `b >= 128u8` test (src/main.rs:60) and carries no contract of its own. `TopBitIsBit7` states its meaning.
- `Words.Shl1` models the truncating `b << 1` (src/main.rs:65) and carries no contract of its own. `ShiftMovesBit` states its meaning.
- `Mesher.ColourOf` models the choice `if bit == &1u8 {BLACK} else {WHITE}` (src/main.rs:44) and carries no contract of its own. `LayoutVertices` states its meaning.
