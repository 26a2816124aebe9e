/** The stream of `ZV` blocks that a coredump is sent as. */
module BlockStream {
  import opened Options

  type Byte = b: int | 0 <= b < 256

  const Z: Byte := 0x5A
  const V: Byte := 0x56
  const RAW: Byte := 0
  const LZF: Byte := 1

  /** The foreign decompressor: the bytes it writes for a packed block and an output size. */
  type Lzf = (seq<Byte>, nat) -> seq<Byte>

  /** `_lzf_decompress_block`: nothing written counts as an error, so an empty block is one. */
  function LzfBlock(lzf: Lzf, packed: seq<Byte>, size: nat): Option<seq<Byte>> {
    var out := lzf(packed, size);
    if |out| == 0 || |out| != size then None else Some(out)
  }

  /** Big-endian 16 bits. */
  function Word(hi: Byte, lo: Byte): nat {
    hi * 256 + lo
  }

  function WordBytes(n: nat): (r: seq<Byte>)
    requires n < 0x10000
    ensures |r| == 2 && Word(r[0], r[1]) == n
  {
    [n / 256, n % 256]
  }

  /** What a read of `n` bytes at the front gives: less when the stream ends. */
  function Front(data: seq<Byte>, n: nat): (r: seq<Byte>)
    ensures |r| == if n <= |data| then n else |data|
  {
    if n <= |data| then data[..n] else data
  }

  function Rest(data: seq<Byte>, n: nat): (r: seq<Byte>)
    ensures |r| == if n <= |data| then |data| - n else 0
  {
    if n <= |data| then data[n..] else []
  }

  predicate StartsBlock(data: seq<Byte>) {
    |data| >= 2 && data[0] == Z && data[1] == V
  }

  /** What the stream decodes to. */
  function Decode(lzf: Lzf, data: seq<Byte>): seq<Byte>
    decreases |data|
  {
    if !StartsBlock(data) || |data| < 5 then []
    else if data[2] == RAW then
      var n := Word(data[3], data[4]);
      Front(data[5..], n) + Decode(lzf, Rest(data[5..], n))
    else if data[2] == LZF && |data| >= 7 then
      var n := Word(data[3], data[4]);
      var block := LzfBlock(lzf, Front(data[7..], n), Word(data[5], data[6]));
      if block.None? then [] else block.value + Decode(lzf, Rest(data[7..], n))
    else []
  }

  /** `io.BytesIO`, as far as it is used. */
  class BytesIO {
    const data: seq<Byte>
    var pos: nat

    constructor (data: seq<Byte>)
      ensures this.data == data && pos == 0 && Remaining() == data
    {
      this.data, pos := data, 0;
    }

    ghost function Remaining(): seq<Byte>
      reads this
    {
      Rest(data, pos)
    }

    method Read(n: nat) returns (r: seq<Byte>)
      modifies this
      ensures r == Front(old(Remaining()), n) && Remaining() == Rest(old(Remaining()), n)
    {
      if pos > |data| {
        return [];
      }
      var end := if pos + n <= |data| then pos + n else |data|;
      r := data[pos..end];
      pos := end;
    }
  }

  lemma RestOfRest(data: seq<Byte>, a: nat, b: nat)
    ensures Rest(Rest(data, a), b) == Rest(data, a + b)
  {
  }

  /** What the reads of a round get, against the positions that Decode looks at. */
  lemma HeaderReads(s0: seq<Byte>)
    ensures Front(s0, 2) == [Z, V] <==> StartsBlock(s0)
    ensures |s0| < 5 ==> |Front(Rest(s0, 3), 2)| < 2
    ensures |s0| >= 5 ==>
      Front(Rest(s0, 2), 1) == [s0[2]] && Front(Rest(s0, 3), 2) == [s0[3], s0[4]] && Rest(s0, 5) == s0[5..]
    ensures 5 <= |s0| < 7 ==> |Front(Rest(s0, 5), 2)| < 2
    ensures |s0| >= 7 ==> Front(Rest(s0, 5), 2) == [s0[5], s0[6]] && Rest(s0, 7) == s0[7..]
  {
  }

  /** What is decoded after each way a round can read. */
  lemma RoundDecodes(lzf: Lzf, s0: seq<Byte>)
    ensures var s3 := Rest(Rest(s0, 2), 1); var s5 := Rest(s3, 2); var s7 := Rest(s5, 2);
      var typ, clen, ulen := Front(Rest(s0, 2), 1), Front(s3, 2), Front(s5, 2);
      if Front(s0, 2) != [Z, V] || |clen| < 2 then Decode(lzf, s0) == []
      else
        var n := Word(clen[0], clen[1]);
        if typ == [RAW] then Decode(lzf, s0) == Front(s5, n) + Decode(lzf, Rest(s5, n))
        else if typ == [LZF] && |ulen| == 2 then
          var block := LzfBlock(lzf, Front(s7, n), Word(ulen[0], ulen[1]));
          Decode(lzf, s0) == if block.None? then [] else block.value + Decode(lzf, Rest(s7, n))
        else Decode(lzf, s0) == []
  {
    hide Word, Front, Rest, LzfBlock;
    HeaderReads(s0);
    RestOfRest(s0, 2, 1);
    RestOfRest(s0, 3, 2);
    RestOfRest(s0, 5, 2);
  }

  /** `_decompress`; the loop ends because every round takes the two bytes of a block start at least. */
  method Decompress(lzf: Lzf, data: seq<Byte>) returns (output: seq<Byte>)
    ensures output == Decode(lzf, data)
  {
    hide Word, Front, Rest, LzfBlock, Decode;
    var stream := new BytesIO(data);
    output := [];
    while true
      invariant fresh(stream) && output + Decode(lzf, stream.Remaining()) == Decode(lzf, data)
      decreases |stream.Remaining()|
    {
      RoundDecodes(lzf, stream.Remaining());
      var magic := stream.Read(2);
      if magic != [Z, V] { break; }
      var typ := stream.Read(1);
      var clenRaw := stream.Read(2);
      if |clenRaw| < 2 { break; }
      var clen := Word(clenRaw[0], clenRaw[1]);
      if typ == [RAW] {
        var block := stream.Read(clen);
        output := output + block;
      } else if typ == [LZF] {
        var ulenRaw := stream.Read(2);
        if |ulenRaw| < 2 { break; }
        var packed := stream.Read(clen);
        var block := LzfBlock(lzf, packed, Word(ulenRaw[0], ulenRaw[1]));
        if block.None? { break; }
        output := output + block.value;
      } else {
        break;
      }
    }
  }

  // ---------- framing and decoding ----------

  datatype Block = Raw(data: seq<Byte>) | Packed(data: seq<Byte>)

  /** Unpacking what was packed gives the data back. */
  ghost predicate Inverse(pack: seq<Byte> -> seq<Byte>, lzf: Lzf) {
    forall x: seq<Byte> :: lzf(pack(x), |x|) == x
  }

  /** The block's lengths fit into the frame. */
  predicate Fits(pack: seq<Byte> -> seq<Byte>, b: Block) {
    match b
    case Raw(data) => |data| < 0x10000
    case Packed(data) => |data| < 0x10000 && |pack(data)| < 0x10000
  }

  function Frame(pack: seq<Byte> -> seq<Byte>, b: Block): seq<Byte>
    requires Fits(pack, b)
  {
    match b
    case Raw(data) => [Z, V, RAW] + WordBytes(|data|) + data
    case Packed(data) => [Z, V, LZF] + WordBytes(|pack(data)|) + WordBytes(|data|) + pack(data)
  }

  predicate AllFit(pack: seq<Byte> -> seq<Byte>, blocks: seq<Block>) {
    forall i | 0 <= i < |blocks| :: Fits(pack, blocks[i])
  }

  function FrameAll(pack: seq<Byte> -> seq<Byte>, blocks: seq<Block>): seq<Byte>
    requires AllFit(pack, blocks)
  {
    if blocks == [] then [] else Frame(pack, blocks[0]) + FrameAll(pack, blocks[1..])
  }

  function Contents(blocks: seq<Block>): seq<Byte> {
    if blocks == [] then [] else blocks[0].data + Contents(blocks[1..])
  }

  predicate IsEmptyPacked(b: Block) {
    b.Packed? && b.data == []
  }

  /** A raw block gives its bytes, or those that are left of it. */
  lemma DecodeRaw(lzf: Lzf, n: nat, d: seq<Byte>, rest: seq<Byte>)
    requires |d| <= n < 0x10000 && (|d| < n ==> rest == [])
    ensures Decode(lzf, [0x5A, 0x56, 0, n / 256, n % 256] + d + rest) == d + Decode(lzf, rest)
  {
    hide LzfBlock;
    var data := [0x5A, 0x56, 0, n / 256, n % 256] + d + rest;
    assert data[5..] == d + rest;
    assert Front(d + rest, n) == d && Rest(d + rest, n) == rest;
  }

  /** A packed block, or what is left of it, gives what it unpacks to; the wrong size or nothing ends the stream. */
  lemma DecodePacked(lzf: Lzf, n: nat, packed: seq<Byte>, size: nat, rest: seq<Byte>)
    requires |packed| <= n < 0x10000 && size < 0x10000 && (|packed| < n ==> rest == [])
    ensures Decode(lzf, [0x5A, 0x56, 1, n / 256, n % 256, size / 256, size % 256] + packed + rest)
         == if size > 0 && |lzf(packed, size)| == size then lzf(packed, size) + Decode(lzf, rest) else []
  {
    var data := [0x5A, 0x56, 1, n / 256, n % 256, size / 256, size % 256] + packed + rest;
    assert data[7..] == packed + rest;
    assert Front(packed + rest, n) == packed && Rest(packed + rest, n) == rest;
    assert Word(data[3], data[4]) == n && Word(data[5], data[6]) == size;
    hide Front, Rest, Word;
  }

  /** Anything else ends the stream. */
  lemma DecodeEnds(lzf: Lzf, data: seq<Byte>)
    requires |data| >= 5 && data[..2] == [0x5A, 0x56] ==> data[2] > 1 || (data[2] == 1 && |data| < 7)
    ensures Decode(lzf, data) == []
  {
    assert |data| >= 2 ==> (data[..2] == [0x5A, 0x56] <==> data[0] == 0x5A && data[1] == 0x56);
  }

  lemma FrameIs(pack: seq<Byte> -> seq<Byte>, b: Block)
    requires Fits(pack, b)
    ensures b.Raw? ==> Frame(pack, b) == [0x5A, 0x56, 0, |b.data| / 256, |b.data| % 256] + b.data
    ensures b.Packed? ==> var packed := pack(b.data);
      Frame(pack, b) ==
      [0x5A, 0x56, 1, |packed| / 256, |packed| % 256, |b.data| / 256, |b.data| % 256] + packed
  {
  }

  lemma DecodeFirst(pack: seq<Byte> -> seq<Byte>, lzf: Lzf, b: Block, rest: seq<Byte>)
    requires Inverse(pack, lzf) && Fits(pack, b)
    ensures Decode(lzf, Frame(pack, b) + rest) == if IsEmptyPacked(b) then [] else b.data + Decode(lzf, rest)
  {
    FrameIs(pack, b);
    hide Decode, Frame;
    match b
    case Raw(d) => DecodeRaw(lzf, |d|, d, rest);
    case Packed(d) => DecodePacked(lzf, |pack(d)|, pack(d), |d|, rest);
  }

  /**
   * Decoding any list of framed blocks gives their contents up to the first empty packed block,
   * whatever follows them as long as it does not look like a block.
   */
  lemma {:induction false} DecodeFramed(pack: seq<Byte> -> seq<Byte>, lzf: Lzf, blocks: seq<Block>, rest: seq<Byte>)
    requires Inverse(pack, lzf) && AllFit(pack, blocks) && !StartsBlock(rest)
    ensures Decode(lzf, FrameAll(pack, blocks) + rest) == Contents(BeforeEmpty(blocks))
  {
    if blocks == [] {
      assert FrameAll(pack, blocks) + rest == rest;
    } else {
      var tail := FrameAll(pack, blocks[1..]) + rest;
      assert FrameAll(pack, blocks) + rest == Frame(pack, blocks[0]) + tail;
      DecodeFirst(pack, lzf, blocks[0], tail);
      DecodeFramed(pack, lzf, blocks[1..], rest);
    }
  }

  /** The blocks up to the first empty packed one. */
  function BeforeEmpty(blocks: seq<Block>): seq<Block> {
    if blocks == [] || IsEmptyPacked(blocks[0]) then [] else [blocks[0]] + BeforeEmpty(blocks[1..])
  }

  /** The whole contents come back iff nothing is left to decode after an empty packed block. */
  lemma {:induction false} DecodesToContentsIff(
    pack: seq<Byte> -> seq<Byte>, lzf: Lzf, blocks: seq<Block>, rest: seq<Byte>)
    requires Inverse(pack, lzf) && AllFit(pack, blocks) && !StartsBlock(rest)
    ensures Decode(lzf, FrameAll(pack, blocks) + rest) == Contents(blocks) <==>
            forall i, j | 0 <= i < j < |blocks| && IsEmptyPacked(blocks[i]) :: blocks[j].data == []
  {
    DecodeFramed(pack, lzf, blocks, rest);
    ContentsBeforeEmpty(blocks);
  }

  /** A raw block after an empty compressed one is not decoded. */
  lemma EmptyBlockEndsStream(pack: seq<Byte> -> seq<Byte>, lzf: Lzf)
    requires Inverse(pack, lzf) && |pack([])| < 0x10000
    ensures var blocks := [Packed([]), Raw([1])];
      Contents(blocks) == [1] && AllFit(pack, blocks) && Decode(lzf, FrameAll(pack, blocks)) == []
  {
    hide Decode, FrameAll, Frame, Fits, WordBytes;
    var blocks := [Packed([]), Raw([1])];
    assert blocks[1..] == [Raw([1])] && blocks[1..][1..] == [];
    SmallBlocksFit(pack);
    assert FrameAll(pack, blocks) + [] == FrameAll(pack, blocks);
    DecodeFramed(pack, lzf, blocks, []);
  }

  lemma SmallBlocksFit(pack: seq<Byte> -> seq<Byte>)
    requires |pack([])| < 0x10000
    ensures Fits(pack, Packed([])) && Fits(pack, Raw([1]))
  {
  }

  lemma {:induction false} ContentsBeforeEmpty(blocks: seq<Block>)
    ensures Contents(BeforeEmpty(blocks)) == Contents(blocks) <==>
            forall i, j | 0 <= i < j < |blocks| && IsEmptyPacked(blocks[i]) :: blocks[j].data == []
  {
    if blocks != [] {
      if IsEmptyPacked(blocks[0]) {
        EmptyContents(blocks);
      } else {
        ContentsBeforeEmpty(blocks[1..]);
        assert forall j | 1 <= j < |blocks| :: blocks[j] == blocks[1..][j - 1];
        assert BeforeEmpty(blocks)[1..] == BeforeEmpty(blocks[1..]);
        var d, c, c' := blocks[0].data, Contents(BeforeEmpty(blocks[1..])), Contents(blocks[1..]);
        assert (d + c)[|d|..] == c && (d + c')[|d|..] == c';
      }
    }
  }

  lemma {:induction false} EmptyContents(blocks: seq<Block>)
    ensures Contents(blocks) == [] <==> forall j | 0 <= j < |blocks| :: blocks[j].data == []
  {
    if blocks != [] {
      EmptyContents(blocks[1..]);
      assert forall j | 1 <= j < |blocks| :: blocks[j] == blocks[1..][j - 1];
    }
  }

  // ---------- a dump that was cut off ----------

  /** No packed block is ever reached. */
  predicate RawOnly(data: seq<Byte>)
    decreases |data|
  {
    if !StartsBlock(data) || |data| < 5 then true
    else if data[2] == RAW then RawOnly(Rest(data[5..], Word(data[3], data[4])))
    else data[2] != LZF
  }

  /** The decompressor fails on a packed block that was cut off, or gives the right data anyway. */
  ghost predicate CutSafe(lzf: Lzf) {
    forall packed: seq<Byte>, k: nat, size: nat | k <= |packed| ::
      LzfBlock(lzf, packed[..k], size).None? || LzfBlock(lzf, packed[..k], size) == LzfBlock(lzf, packed, size)
  }

  lemma CutRest(data: seq<Byte>, n: nat, h: nat, len: nat)
    requires h <= n <= |data|
    ensures data[..n][h..] == data[h..][..n - h]
    ensures var whole := Front(data[h..], len);
      Front(data[..n][h..], len) == whole[..if len <= n - h then |whole| else n - h]
    ensures h + len <= n ==> Rest(data[..n][h..], len) == Rest(data[h..], len)[..n - h - len]
    ensures h + len > n ==> Rest(data[..n][h..], len) == []
  {
  }

  /** Decoding the front part of a stream gives the front part of what the whole stream holds. */
  lemma {:induction false} DecodeCut(lzf: Lzf, data: seq<Byte>, n: nat)
    requires n <= |data| && (RawOnly(data) || CutSafe(lzf))
    ensures Decode(lzf, data[..n]) <= Decode(lzf, data)
    decreases |data|
  {
    hide Front, Rest, Word, LzfBlock;
    if StartsBlock(data[..n]) && n >= 5 {
      var len := Word(data[3], data[4]);
      if data[2] == RAW {
        CutRest(data, n, 5, len);
        if 5 + len <= n {
          DecodeCut(lzf, Rest(data[5..], len), n - 5 - len);
        }
      } else if data[2] == LZF && n >= 7 {
        CutRest(data, n, 7, len);
        var size := Word(data[5], data[6]);
        var packed, cut := Front(data[7..], len), Front(data[..n][7..], len);
        if 7 + len <= n {
          assert cut == packed;
          DecodeCut(lzf, Rest(data[7..], len), n - 7 - len);
        } else {
          assert LzfBlock(lzf, cut, size).None? || LzfBlock(lzf, cut, size) == LzfBlock(lzf, packed, size);
        }
      }
    }
  }
}

/** The syslog coredump handler: from the console tail to the core file. */
module SyslogHandlers {
  import opened Options
  import opened SplitLines
  import opened Extraction
  import opened BlockStream
  import opened DeviceReading

  /** Python's base64 decoder; None for its ValueError. */
  type Base64 = string -> Option<seq<Byte>>

  class SyslogHandler {
    const device: DeviceCommon

    constructor (device: DeviceCommon)
      ensures this.device == device
    {
      this.device := device;
    }

    /** `collect`: the tail is cleared whatever becomes of it. */
    method Collect(lzf: Lzf, b64: Base64) returns (saved: Option<seq<Byte>>)
      requires device.Valid()
      modifies device`outputTail, device`log
      ensures device.Valid() && device.log == ""
      ensures exists payload ::
        && IsPayload(Split(LastN(old(device.log), OUTPUT_TAIL_MAX)), payload)
        && if payload.Some? && b64(payload.value).Some? && Decode(lzf, b64(payload.value).value) != []
           then saved == Some(Decode(lzf, b64(payload.value).value)) else saved == None
    {
      var output := device.outputTail;
      device.ResetOutputTail();
      var payload := ExtractPayload(output);
      saved := None;
      if payload.None? { return; }
      var raw := b64(payload.value);
      if raw.None? { return; }
      var data := Decompress(lzf, raw.value);
      if data == [] { return; }
      saved := Some(data);
    }
  }

  /** A target prints the framed blocks of its core, in base64, between the markers. */
  ghost predicate Prints(
    pack: seq<Byte> -> seq<Byte>, encode: seq<Byte> -> string, blocks: seq<Block>, data: seq<(string, string)>)
  {
    AllFit(pack, blocks) && Chunks(data) == encode(FrameAll(pack, blocks))
  }

  /**
   * A core printed on the console is collected whole: when the dump and what follows it fit into
   * the tail, the collected file holds exactly the contents of the blocks, and nothing is left behind.
   */
  method CollectPrinted(
    handler: SyslogHandler, lzf: Lzf, b64: Base64,
    ghost pack: seq<Byte> -> seq<Byte>, ghost encode: seq<Byte> -> string,
    ghost ending: string, ghost pre: seq<string>, ghost start: string, ghost data: seq<(string, string)>,
    ghost finish: string, ghost post: seq<string>, ghost blocks: seq<Block>)
    returns (saved: Option<seq<Byte>>)
    requires handler.device.Valid()
    requires Inverse(pack, lzf) && forall x :: b64(encode(x)) == Some(x)
    requires IsDump(start, data, finish, post) && AllUnbroken(Console(pre, start, data, finish, post))
    requires IsLineEnding(ending) && handler.device.log == Print(ending, Console(pre, start, data, finish, post))
    requires |Print(ending, [start] + DumpLines(data) + [finish] + post)| <= OUTPUT_TAIL_MAX
    requires Prints(pack, encode, blocks, data) && forall i | 0 <= i < |blocks| :: !IsEmptyPacked(blocks[i])
    modifies handler.device`outputTail, handler.device`log
    ensures saved == if Contents(blocks) == [] then None else Some(Contents(blocks))
    ensures handler.device.Valid() && handler.device.log == ""
  {
    saved := handler.Collect(lzf, b64);
    ghost var payload :|
      && IsPayload(Split(LastN(old(handler.device.log), OUTPUT_TAIL_MAX)), payload)
      && if payload.Some? && b64(payload.value).Some? && Decode(lzf, b64(payload.value).value) != []
         then saved == Some(Decode(lzf, b64(payload.value).value)) else saved == None;
    ExtractPrintedFromTail(ending, pre, start, data, finish, post, OUTPUT_TAIL_MAX, payload);
    assert FrameAll(pack, blocks) + [] == FrameAll(pack, blocks);
    DecodesToContentsIff(pack, lzf, blocks, []);
  }
}
