// main.c: finding a place for the loader beside the image it maps.
module LoaderBases {
  import opened ImageFiles

  const CL_BASE := 0x6000_0000
  const CL_TOP := 0x8000_0000

  /** The loader at base, total bytes long, overlaps a segment. */
  ghost predicate Overlaps(base: nat, total: nat, seg: Segment) {
    base + total > seg.addr && base < seg.addr + seg.size
  }

  ghost predicate Clashes(base: nat, total: nat, cfg: seq<Segment>) {
    exists k :: 0 <= k < |cfg| && Overlaps(base, total, cfg[k])
  }

  ghost predicate SortedByAddr(cfg: seq<Segment>) {
    forall j, k :: 0 <= j < k < |cfg| ==> cfg[j].addr <= cfg[k].addr
  }

  /** Which clashes one more segment brings. */
  lemma ClashesAppend(base: nat, total: nat, cfg: seq<Segment>, i: nat)
    requires i < |cfg|
    ensures Clashes(base, total, cfg[..i + 1]) <==> Clashes(base, total, cfg[..i]) || Overlaps(base, total, cfg[i])
  {
    if Clashes(base, total, cfg[..i]) {
      var k :| 0 <= k < i && Overlaps(base, total, cfg[..i][k]);
      assert cfg[..i + 1][k] == cfg[..i][k];
    }
    if Overlaps(base, total, cfg[i]) {
      assert cfg[..i + 1][i] == cfg[i];
    }
    if Clashes(base, total, cfg[..i + 1]) {
      var k :| 0 <= k < i + 1 && Overlaps(base, total, cfg[..i + 1][k]);
      assert k < i ==> cfg[..i][k] == cfg[..i + 1][k];
    }
  }

  /**
   * The loop over the sorted segments: found is the least base from CL_BASE on at which the loader
   * overlaps none of them. They may overlap each other.
   */
  method FindBase(cfg: seq<Segment>, total: nat) returns (found: nat)
    requires SortedByAddr(cfg)
    ensures CL_BASE <= found && !Clashes(found, total, cfg)
    ensures forall b: nat :: CL_BASE <= b < found ==> Clashes(b, total, cfg)
  {
    found := CL_BASE;
    for i := 0 to |cfg|
      invariant CL_BASE <= found && !Clashes(found, total, cfg[..i])
      invariant forall b: nat :: CL_BASE <= b < found ==> Clashes(b, total, cfg[..i])
    {
      ghost var before := found;
      if found + total > cfg[i].addr && found < cfg[i].addr + cfg[i].size {
        found := cfg[i].addr + cfg[i].size;
      }
      MovedOver(cfg, i, before, found, total, cfg[..i + 1]);
    }
    assert cfg[..|cfg|] == cfg;
  }

  lemma MovedOver(cfg: seq<Segment>, i: nat, before: nat, after: nat, total: nat, next: seq<Segment>)
    requires SortedByAddr(cfg) && i < |cfg| && next == cfg[..i + 1] && !Clashes(before, total, cfg[..i])
    requires forall b: nat :: CL_BASE <= b < before ==> Clashes(b, total, cfg[..i])
    requires after == if Overlaps(before, total, cfg[i]) then cfg[i].addr + cfg[i].size else before
    ensures !Clashes(after, total, next)
    ensures forall b: nat :: CL_BASE <= b < after ==> Clashes(b, total, next)
  {
    forall k | 0 <= k < |next| ensures !Overlaps(after, total, next[k]) {
      if k < i {
        assert next[k] == cfg[..i][k] && next[k].addr <= cfg[i].addr;
        assert !Overlaps(before, total, cfg[..i][k]);
      }
    }
    forall b: nat | CL_BASE <= b < after ensures Clashes(b, total, next) {
      ClashesAppend(b, total, cfg, i);
    }
  }

  /** main gives up exactly when no base leaves room below CL_TOP. */
  method PlaceLoader(cfg: seq<Segment>, total: nat) returns (r: int)
    requires SortedByAddr(cfg)
    ensures r >= 0 ==> CL_BASE <= r && r + total <= CL_TOP && !Clashes(r, total, cfg)
    ensures forall b: nat :: CL_BASE <= b < r ==> Clashes(b, total, cfg)
    ensures r == -1 <==> forall b: nat :: CL_BASE <= b && b + total <= CL_TOP ==> Clashes(b, total, cfg)
    ensures r >= -1
  {
    r := FindBase(cfg, total);
    if r + total > CL_TOP {
      return -1;
    }
  }
}
