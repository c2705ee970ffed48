// What the loader's memory holds, byte by byte.
module LoadedBytes {
  import opened Bytes
  import opened Images
  import opened ImageFiles
  import opened LoadOrders
  import opened Loaders

  /** What map_pages asks of a segment: raw ones lie at page boundaries, packed ones fit the buffer and unpack. */
  ghost predicate Mappable(seg: Segment, dump: seq<byte>, codec: Codec) {
    if seg.length == seg.size then seg.offset % 4096 == 0 && seg.offset + seg.size <= |dump|
    else
      seg.length <= 2048 && seg.offset + seg.length <= |dump| &&
      var out := codec.decompress(dump[seg.offset..seg.offset + seg.length], seg.size);
      out.Some? && 0 < |out.value| <= seg.size
  }

  /** Byte i of the memory made for a segment; where unpacking ends early it is zero. */
  ghost function SegmentByte(seg: Segment, dump: seq<byte>, codec: Codec, i: nat): byte
    requires Mappable(seg, dump, codec) && i < seg.size
  {
    if seg.length == seg.size then dump[seg.offset + i]
    else
      var out := codec.decompress(dump[seg.offset..seg.offset + seg.length], seg.size).value;
      if i < |out| then out[i] else 0
  }

  lemma AlignedByDivision(a: nat)
    ensures Aligned(a) <==> a % 4096 == 0
  {
    BaseIsProduct(PageOf(a));
    BaseIsProduct(a / 4096);
  }

  lemma ContentBytes(seg: Segment, dump: seq<byte>, codec: Codec)
    requires OnPages(seg)
    ensures Content(seg, dump, codec).Some? <==> Mappable(seg, dump, codec)
    ensures Mappable(seg, dump, codec) ==>
      forall i: nat :: i < seg.size ==> Content(seg, dump, codec).value[i] == SegmentByte(seg, dump, codec, i)
  {
    AlignedByDivision(seg.offset);
  }

  /** The file loads exactly if every segment can be mapped, whatever their order. */
  lemma LoadsIfMappable(cfg: seq<Segment>, dump: seq<byte>, codec: Codec)
    requires AllOnPages(cfg) && PagesApart(cfg)
    ensures Load(cfg, dump, codec, map[]).Some? <==> forall seg :: seg in cfg ==> Mappable(seg, dump, codec)
  {
    LoadMakes(cfg, dump, codec);
    forall seg | seg in cfg ensures Content(seg, dump, codec).Some? <==> Mappable(seg, dump, codec) {
      ContentBytes(seg, dump, codec);
    }
  }

  /** Then every byte of every segment is at its address. */
  lemma ByteLoaded(cfg: seq<Segment>, dump: seq<byte>, codec: Codec, seg: Segment, i: nat)
    requires AllOnPages(cfg) && PagesApart(cfg) && Load(cfg, dump, codec, map[]).Some?
    requires seg in cfg && i < seg.size
    ensures Mappable(seg, dump, codec)
    ensures var m, a := Load(cfg, dump, codec, map[]).value, seg.addr + i;
      a / 4096 in m && a % 4096 < |m[a / 4096]| && m[a / 4096][a % 4096] == SegmentByte(seg, dump, codec, i)
  {
    LoadMakes(cfg, dump, codec);
    ContentBytes(seg, dump, codec);
    SegmentPage(seg, i);
    assert PageFrom(Load(cfg, dump, codec, map[]).value, seg, dump, codec, PageOf(seg.addr + i));
    ByteOfPage(Load(cfg, dump, codec, map[]).value, seg, dump, codec, i);
  }

  lemma ByteOfPage(m: ProcessMemory, seg: Segment, dump: seq<byte>, codec: Codec, i: nat)
    requires OnPages(seg) && i < seg.size && Mappable(seg, dump, codec) && OfSegment(seg, PageOf(seg.addr + i))
    requires PageFrom(m, seg, dump, codec, PageOf(seg.addr + i))
    ensures var a := seg.addr + i;
      a / 4096 in m && a % 4096 < |m[a / 4096]| && m[a / 4096][a % 4096] == SegmentByte(seg, dump, codec, i)
  {
    var a := seg.addr + i;
    PageByDivision(a);
    ContentBytes(seg, dump, codec);
    SegmentPage(seg, i);
    var c, k := Content(seg, dump, codec).value, PageOf(a) - PageOf(seg.addr);
    assert m[PageOf(a)][OffsOf(a)] == c[Base(k) + OffsOf(a)];
  }

  lemma SegmentPage(seg: Segment, i: nat)
    requires OnPages(seg) && i < seg.size
    ensures OfSegment(seg, PageOf(seg.addr + i)) && Base(PageOf(seg.addr + i) - PageOf(seg.addr)) <= i
    ensures i - Base(PageOf(seg.addr + i) - PageOf(seg.addr)) == OffsOf(seg.addr + i)
  {
  }

  /** And there is no other page. */
  lemma NoOtherPage(cfg: seq<Segment>, dump: seq<byte>, codec: Codec, p: nat)
    requires AllOnPages(cfg) && PagesApart(cfg) && Load(cfg, dump, codec, map[]).Some?
    ensures p in Load(cfg, dump, codec, map[]).value ==>
      exists seg :: seg in cfg && seg.addr <= 4096 * p && 4096 * p + 4096 <= seg.addr + seg.size
  {
    LoadMakes(cfg, dump, codec);
    if p in Load(cfg, dump, codec, map[]).value {
      var seg :| seg in cfg && OfSegment(seg, p);
      BaseIsProduct(p);
    }
  }
}
