/** Cell occupants. A block is a coloured cell with a texture id; a virus is a block
    whose flag is set and whose texture id is the dedicated virus texture. Blocks are
    values stored by coordinate, so no stored position is kept (see README). */
module Blocks {
  import Oracle

  datatype Block = Block(color: string, textureId: int, isVirus: bool)

  /** Ordinary block textures are drawn from [0, BlockTextures). */
  const BlockTextures: int := 8
  /** The texture id every virus carries. */
  const VirusTexture: int := 8

  /** The public Block constructor: the colour as given, a random texture, not a virus. */
  method NewBlock(color: string) returns (b: Block)
    ensures b.color == color && !b.isVirus
    ensures 0 <= b.textureId < BlockTextures
  {
    var t := Oracle.NextInt(BlockTextures);
    b := Block(color, t, false);
  }

  /** The Virus constructor: the colour as given, the virus flag and the virus texture. */
  function NewVirus(color: string): (b: Block)
    ensures b.isVirus && b.color == color
    ensures b.textureId == VirusTexture && !(0 <= b.textureId < BlockTextures)
  {
    Block(color, VirusTexture, true)
  }

  /** setColor: only the colour changes; texture id and virus flag have no setter. */
  function WithColor(b: Block, color: string): (r: Block)
    ensures r.color == color
    ensures r.textureId == b.textureId && r.isVirus == b.isVirus
  {
    b.(color := color)
  }

  /** Whatever sequence of colour changes a block undergoes, its texture id and its
      virus flag stay those it was constructed with. */
  lemma {:induction false} RecolouringKeepsIdentity(b: Block, colors: seq<string>)
    ensures Recolour(b, colors).textureId == b.textureId
    ensures Recolour(b, colors).isVirus == b.isVirus
    ensures colors != [] ==> Recolour(b, colors).color == colors[|colors| - 1]
    decreases colors
  {
    if colors != [] {
      RecolouringKeepsIdentity(WithColor(b, colors[0]), colors[1..]);
    }
  }

  /** The block after setColor was called with each of `colors` in turn. */
  function Recolour(b: Block, colors: seq<string>): Block
    decreases colors
  {
    if colors == [] then b else Recolour(WithColor(b, colors[0]), colors[1..])
  }
}
