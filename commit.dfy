/** `dt_iop_commit_params`: a pipeline piece takes over its module's
    parameters. A disabled piece gets hash 0; an enabled one copies the blend
    parameters and gets a djb2-style 64-bit hash of the module's parameter
    block, the blend record (when the operation supports blending) and the
    hash bytes of the mask group the blend record refers to. */
module Commit {
  import opened IopTypes

  /** The initial value of the hash. */
  const Seed: bv64 := 5381

  /** `sizeof(dt_develop_blend_params_t)`: seven 4-byte scalars, four 4-byte
      reserved words and 64 floats. */
  const BlendParamsSize: nat := 300

  /** The value of a byte read as a C `char` (signed on the targets the hash
      is computed on). */
  function Signed8(b: byte): int
  {
    if b < 0x80 then b as int else b as int - 0x100
  }

  function Signed64(w: bv64): int
  {
    if w < 0x8000_0000_0000_0000 then w as int else w as int - 0x1_0000_0000_0000_0000
  }

  /** The promotion of a `char` to the 64-bit hash: sign extension. */
  function SignExtend(b: byte): (r: bv64)
    ensures Signed64(r) == Signed8(b)
  {
    if b < 0x80 then b as bv64 else (b as bv64) | 0xffff_ffff_ffff_ff00
  }

  lemma SignExtendInjective(a: byte, b: byte)
    requires SignExtend(a) == SignExtend(b)
    ensures a == b
  {
    assert Signed8(a) == Signed8(b);
  }

  /** One round of the hash loop: `hash = ((hash << 5) + hash) ^ str[i]`,
      wrapping modulo 2^64. */
  function Step(h: bv64, b: byte): bv64
  {
    ((h << 5) + h) ^ SignExtend(b)
  }

  /** The shift-and-add of a round is the djb2 multiplication by 33. */
  lemma StepIsTimes33(h: bv64, b: byte)
    ensures Step(h, b) == (h * 33) ^ SignExtend(b)
  {
  }

  /** The hash of `s` continued from the running value `h`. */
  function HashFrom(h: bv64, s: seq<byte>): bv64
    decreases |s|
  {
    if s == [] then h else HashFrom(Step(h, s[0]), s[1..])
  }

  function Hash(s: seq<byte>): bv64
  {
    HashFrom(Seed, s)
  }

  /** The hash of a concatenation is the hash of the second part continued
      from the hash of the first: the buffer may be hashed piece by piece. */
  lemma {:induction false} HashAppend(h: bv64, a: seq<byte>, b: seq<byte>)
    ensures HashFrom(h, a + b) == HashFrom(HashFrom(h, a), b)
    decreases |a|
  {
    if a == [] {
      assert a + b == b;
    } else {
      assert (a + b)[1..] == a[1..] + b;
      HashAppend(Step(h, a[0]), a[1..], b);
    }
  }

  /** Undoing one round, given the byte that was mixed in: 0x0f83e0f83e0f83e1
      is the multiplicative inverse of 33 modulo 2^64. */
  function Unstep(g: bv64, b: byte): bv64
  {
    (g ^ SignExtend(b)) * 0x0f83_e0f8_3e0f_83e1
  }

  /** Multiplying by 33 is undone by multiplying by its inverse. */
  lemma Times33Invertible(h: bv64)
    ensures (h * 33) * 0x0f83_e0f8_3e0f_83e1 == h
  {
  }

  lemma StepInvertible(h: bv64, b: byte)
    ensures Unstep(Step(h, b), b) == h
  {
    var m := h * 33;
    var e := SignExtend(b);
    StepIsTimes33(h, b);
    assert (m ^ e) ^ e == m;
    Times33Invertible(h);
  }

  /** For a fixed input, different running values give different hashes. */
  lemma {:induction false} HashFromInjective(h1: bv64, h2: bv64, s: seq<byte>)
    requires HashFrom(h1, s) == HashFrom(h2, s)
    ensures h1 == h2
    decreases |s|
  {
    if s != [] {
      HashFromInjective(Step(h1, s[0]), Step(h2, s[0]), s[1..]);
      StepInvertible(h1, s[0]);
      StepInvertible(h2, s[0]);
    }
  }

  /** For a fixed running value, different bytes give different rounds. */
  lemma StepByteInjective(h: bv64, b1: byte, b2: byte)
    requires Step(h, b1) == Step(h, b2)
    ensures b1 == b2
  {
    var m := (h << 5) + h;
    assert SignExtend(b1) == (m ^ SignExtend(b1)) ^ m;
    assert SignExtend(b2) == (m ^ SignExtend(b2)) ^ m;
    SignExtendInjective(b1, b2);
  }

  lemma HashSingle(h: bv64, a: seq<byte>, b: byte, c: seq<byte>)
    ensures HashFrom(h, a + [b] + c) == HashFrom(Step(HashFrom(h, a), b), c)
  {
    HashAppend(h, a + [b], c);
    HashAppend(h, a, [b]);
    assert HashFrom(HashFrom(h, a), [b]) == HashFrom(Step(HashFrom(h, a), b), []);
  }

  /** Changing any single byte of the buffer changes the hash: two parameter
      sets that differ in one byte never share a cache entry. */
  lemma SingleByteChangeDetected(a: seq<byte>, b1: byte, b2: byte, c: seq<byte>)
    requires b1 != b2
    ensures Hash(a + [b1] + c) != Hash(a + [b2] + c)
  {
    var h := HashFrom(Seed, a);
    HashSingle(Seed, a, b1, c);
    HashSingle(Seed, a, b2, c);
    if Hash(a + [b1] + c) == Hash(a + [b2] + c) {
      HashFromInjective(Step(h, b1), Step(h, b2), c);
      StepByteInjective(h, b1, b2);
    }
  }

  /** The buffer that is hashed: the module's live parameter block, then the
      blend record when the operation supports blending, then the mask
      group's hash bytes. */
  function CommitBuffer(params: seq<byte>, supportsBlending: bool, blendop: seq<byte>, maskHash: seq<byte>)
    : (r: seq<byte>)
    ensures |r| == |params| + (if supportsBlending then |blendop| else 0) + |maskHash|
    ensures r[..|params|] == params
    ensures supportsBlending ==> r[|params|..|params| + |blendop|] == blendop
    ensures r[|r| - |maskHash|..] == maskHash
  {
    var r := (params + (if supportsBlending then blendop else [])) + maskHash;
    assert r[..|params|] == params;
    r
  }

  /** The buffer's hash is the three parts hashed one after the other. */
  lemma HashInParts(params: seq<byte>, supportsBlending: bool, blendop: seq<byte>, maskHash: seq<byte>)
    ensures Hash(CommitBuffer(params, supportsBlending, blendop, maskHash)) ==
            HashFrom(HashFrom(Hash(params), if supportsBlending then blendop else []), maskHash)
  {
    var mid := if supportsBlending then blendop else [];
    HashAppend(Seed, params + mid, maskHash);
    HashAppend(Seed, params, mid);
  }

  /** The hash loop of `dt_iop_commit_params`. */
  method HashBytes(s: seq<byte>) returns (h: bv64)
    ensures h == Hash(s)
  {
    h := Seed;
    var i := 0;
    while i < |s|
      invariant 0 <= i <= |s|
      invariant HashFrom(h, s[i..]) == Hash(s)
    {
      assert s[i..] == [s[i]] + s[i + 1..];
      h := Step(h, s[i]);
      i := i + 1;
    }
  }

  /** The per-pipeline state of one module (`dt_dev_pixelpipe_iop_t`), as far
      as committing parameters touches it. */
  class Piece {
    var enabled: bool
    var hash: bv64
    var blendopData: seq<byte>
    var processClReady: bool

    constructor(enabled: bool)
      ensures this.enabled == enabled && hash == 0 && processClReady == false
      ensures blendopData == seq(BlendParamsSize, _ => 0)
    {
      this.enabled := enabled;
      hash := 0;
      blendopData := seq(BlendParamsSize, _ => 0);
      processClReady := false;
    }

    /** `dt_iop_commit_params` for module `m` with blend record `blendop`;
        the mask group's hash bytes and whether the operation supports
        blending or has an OpenCL path are inputs. Returns the module with
        its blend parameters as committed. */
    method Commit(m: Module, blendop: seq<byte>, supportsBlending: bool, hasProcessCl: bool, maskHash: seq<byte>)
      returns (committed: Module)
      requires |blendop| == BlendParamsSize
      modifies this
      ensures enabled == old(enabled)
      ensures !enabled ==> hash == 0 && blendopData == old(blendopData) &&
                            processClReady == old(processClReady) && committed == m
      ensures enabled ==> hash == Hash(CommitBuffer(m.params, supportsBlending, blendop, maskHash))
      ensures enabled ==> blendopData == blendop && committed == m.(blendParams := blendop)
      ensures enabled ==> processClReady == (old(processClReady) || hasProcessCl)
    {
      hash := 0;
      committed := m;
      if enabled {
        var buffer := m.params;
        if supportsBlending {
          buffer := buffer + blendop;
        }
        blendopData := blendop;
        committed := m.(blendParams := blendop);
        buffer := buffer + maskHash;
        if hasProcessCl {
          processClReady := true;
        }
        hash := HashBytes(buffer);
      }
    }
  }

  /** With blending supported, two commits whose blend records differ in one
      byte get different hashes. */
  lemma BlendChangeDetected(params: seq<byte>, blendop: seq<byte>, k: nat, v: byte, maskHash: seq<byte>)
    requires k < |blendop| && blendop[k] != v
    ensures Hash(CommitBuffer(params, true, blendop, maskHash)) !=
            Hash(CommitBuffer(params, true, blendop[k := v], maskHash))
  {
    var a := params + blendop[..k];
    var c := blendop[k + 1..] + maskHash;
    assert CommitBuffer(params, true, blendop, maskHash) == a + [blendop[k]] + c;
    assert CommitBuffer(params, true, blendop[k := v], maskHash) == a + [v] + c;
    SingleByteChangeDetected(a, blendop[k], v, c);
  }

  /** Without blending the blend record does not enter the hash at all. */
  lemma BlendIgnoredWithoutSupport(params: seq<byte>, b1: seq<byte>, b2: seq<byte>, maskHash: seq<byte>)
    ensures CommitBuffer(params, false, b1, maskHash) == CommitBuffer(params, false, b2, maskHash)
  {
  }
}
