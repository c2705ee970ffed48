// The loader's map_pages, and which pages of its memory come from which segment.
module Loaders {
  import opened Bytes
  import opened Images
  import opened ImageFiles

  class Process {
    var mem: ProcessMemory

    constructor ()
      ensures mem == map[]
    {
      mem := map[];
    }

    /** Puts n pages of content from page pn on, as mmap or the decompressor does. */
    method MapBytes(pn: nat, n: nat, content: seq<byte>)
      requires Base(n) <= |content|
      modifies this
      ensures mem == MapAt(old(mem), pn, n, content)
    {
      for i := 0 to n
        invariant mem == MapAt(old(mem), pn, i, content)
      {
        mem := mem[pn + i := PageAt(content, i)];
      }
    }

    /** map_pages: false stands for each of its panics. */
    method MapPages(cfg: seq<Segment>, dump: seq<byte>, codec: Codec) returns (ok: bool)
      requires forall seg :: seg in cfg ==> OnPages(seg)
      modifies this
      ensures ok <==> Load(cfg, dump, codec, old(mem)).Some?
      ensures ok ==> mem == Load(cfg, dump, codec, old(mem)).value
    {
      for i := 0 to |cfg|
        invariant Load(cfg[..i], dump, codec, old(mem)) == Some(mem)
      {
        var seg := cfg[i];
        assert cfg[..i + 1] == cfg[..i] + [seg];
        var content := Fetch(seg, dump, codec);
        if content.None? {
          LoadStops(cfg, i + 1, dump, codec, old(mem));
          return false;
        }
        LoadAppend(cfg[..i], seg, dump, codec, old(mem));
        var pn := ShiftToPage(seg.addr);
        var n := ShiftToPage(seg.size);
        MapBytes(pn, n, content.value);
      }
      assert cfg[..|cfg|] == cfg;
      return true;
    }

    /** The bytes of one segment, through the loader's fixed buffer when they are compressed. */
    static method Fetch(seg: Segment, dump: seq<byte>, codec: Codec) returns (r: Option<seq<byte>>)
      requires OnPages(seg)
      ensures r == Content(seg, dump, codec)
    {
      if seg.size == seg.length {
        var pn := ShiftToPage(seg.offset);
        if Base(pn) != seg.offset || seg.offset + seg.size > |dump| {
          return None;
        }
        return Some(dump[seg.offset..seg.offset + seg.size]);
      }
      if seg.length > CL_BUF_SIZE || seg.offset + seg.length > |dump| {
        return None;
      }
      var out := codec.decompress(dump[seg.offset..seg.offset + seg.length], seg.size);
      if out.None? || out.value == [] || |out.value| > seg.size {
        return None;
      }
      return Some(out.value + Zeros(seg.size - |out.value|));
    }
  }

  lemma {:induction false} LoadStops(cfg: seq<Segment>, n: nat, dump: seq<byte>, codec: Codec, mem: ProcessMemory)
    requires forall seg :: seg in cfg ==> OnPages(seg)
    requires 0 < n <= |cfg| && Load(cfg[..n - 1], dump, codec, mem).Some?
    requires Content(cfg[n - 1], dump, codec).None?
    ensures Load(cfg, dump, codec, mem) == None
    decreases |cfg|
  {
    if n < |cfg| {
      assert cfg[..|cfg| - 1][..n - 1] == cfg[..n - 1];
      LoadStops(cfg[..|cfg| - 1], n, dump, codec, mem);
    }
  }

  /** Mapping n pages sets exactly those. */
  lemma {:induction false} MapAtPage(mem: ProcessMemory, pn: nat, n: nat, content: seq<byte>, p: nat)
    requires Base(n) <= |content|
    ensures p in MapAt(mem, pn, n, content) <==> pn <= p < pn + n || p in mem
    ensures pn <= p < pn + n ==>
      Base(p - pn) + 4096 <= |content| && MapAt(mem, pn, n, content)[p] == PageAt(content, p - pn)
    ensures !(pn <= p < pn + n) && p in mem ==> MapAt(mem, pn, n, content)[p] == mem[p]
  {
    if n > 0 {
      MapAtPage(mem, pn, n - 1, content, p);
    }
  }

  /** A page of segment k that no later segment overrides holds what the loader put there. */
  lemma {:induction false} LoadedPage(cfg: seq<Segment>, dump: seq<byte>, codec: Codec, k: nat, i: nat)
    requires (forall seg :: seg in cfg ==> OnPages(seg)) && Load(cfg, dump, codec, map[]).Some?
    requires k < |cfg| && i < PageOf(cfg[k].size)
    requires forall j :: k < j < |cfg| ==> PageOf(cfg[k].addr) + PageOf(cfg[k].size) <= PageOf(cfg[j].addr)
    ensures Content(cfg[k], dump, codec).Some? && Base(i) + 4096 <= |Content(cfg[k], dump, codec).value|
    ensures var m := Load(cfg, dump, codec, map[]).value;
      var p := PageOf(cfg[k].addr) + i;
      p in m && m[p] == PageAt(Content(cfg[k], dump, codec).value, i)
  {
    var n := |cfg| - 1;
    var p := PageOf(cfg[k].addr) + i;
    LastLoaded(cfg, dump, codec, p);
    if k < n {
      LoadedPage(cfg[..n], dump, codec, k, i);
      assert p < PageOf(cfg[n].addr);
    }
  }

  lemma LastLoaded(cfg: seq<Segment>, dump: seq<byte>, codec: Codec, p: nat)
    requires cfg != [] && (forall seg :: seg in cfg ==> OnPages(seg)) && Load(cfg, dump, codec, map[]).Some?
    ensures var n := |cfg| - 1;
      var m, m' := Load(cfg[..n], dump, codec, map[]), Load(cfg, dump, codec, map[]).value;
      var pn, c := PageOf(cfg[n].addr), Content(cfg[n], dump, codec);
      && m.Some? && c.Some?
      && (p < pn && p in m.value ==> p in m' && m'[p] == m.value[p])
      && (pn <= p < pn + PageOf(cfg[n].size) ==>
        p in m' && Base(p - pn) + 4096 <= |c.value| && m'[p] == PageAt(c.value, p - pn))
  {
    var n := |cfg| - 1;
    MapAtPage(Load(cfg[..n], dump, codec, map[]).value, PageOf(cfg[n].addr), PageOf(cfg[n].size),
              Content(cfg[n], dump, codec).value, p);
  }

  /** A file in which some segment cannot be loaded does not load. */
  lemma {:induction false} LoadNeedsAll(cfg: seq<Segment>, dump: seq<byte>, codec: Codec, mem: ProcessMemory, k: nat)
    requires (forall seg :: seg in cfg ==> OnPages(seg)) && k < |cfg| && Load(cfg, dump, codec, mem).Some?
    ensures Content(cfg[k], dump, codec).Some?
  {
    if k < |cfg| - 1 {
      LoadNeedsAll(cfg[..|cfg| - 1], dump, codec, mem, k);
    }
  }

  /** Where a file loads, its raw segments sit at aligned offsets. */
  lemma LoadedIsAligned(file: ImageFile, codec: Codec)
    requires forall seg :: seg in file.cfg ==> OnPages(seg)
    requires Load(file.cfg, file.dump, codec, map[]).Some?
    ensures forall seg :: seg in file.cfg && seg.size == seg.length ==> Aligned(seg.offset)
  {
    forall seg | seg in file.cfg && seg.size == seg.length ensures Aligned(seg.offset) {
      var k :| 0 <= k < |file.cfg| && file.cfg[k] == seg;
      LoadNeedsAll(file.cfg, file.dump, codec, map[], k);
    }
  }
}
