/**
 The per-node address allocator (internal/ipam/allocator.go).

 An address is an address family and a number; the byte-level conversions of
 internal/ipam/pool.go are the sum and difference with the network address.  The state
 directory is the durable set of addresses that have a file; it survives the allocator
 object.  Outcomes of file operations are parameters.
 */
module Ipam {
  import opened Prelude
  import opened Bitmaps

  datatype Family = V4 | V6

  datatype Address = Address(family: Family, value: nat)

  datatype Error =
    | CIDRTooLarge | CIDRTooSmall | StateDirFailed | NoFreeAddresses
    | OutsideCIDR | OutOfRange | AlreadyAllocated | NotAllocated
    | ReleaseNetwork | ReleaseGateway | ReleaseBroadcast | PersistFailed

  datatype Result<+T> = Ok(value: T) | Err(error: Error)

  /** What writing a state file did.  A write can fail after the file was created. */
  datatype Write = Written | FailedClean | FailedLeavingFile

  /** A directory entry as `loadState` sees it. */
  datatype DirEntry = SubDirectory | NotAnAddress | IpFile(address: Address)

  ghost predicate Aligned(base: nat, size: nat)
    requires size > 0
  {
    base % size == 0
  }

  /** The parsed CIDR of a pool. */
  datatype Config = Config(family: Family, base: nat, size: nat) {

    /** What `NewAllocatorWithStateDir` accepts: a network address aligned to a power-of-two
        size that is neither too small nor too large. */
    ghost predicate Valid()
    {
      && (if family.V4? then 4 else 2) <= size <= 0x10_0000
      && Aligned(base, size)
    }

    function AddressAt(idx: nat): Address
    {
      Address(family, base + idx)
    }

    function IndexOf(a: Address): int
    {
      a.value - base
    }

    /** `network.Contains`: same family and the same masked prefix. */
    predicate Contains(a: Address)
      requires size > 0
    {
      a.family == family && a.value / size == base / size
    }

    /** The addresses set aside at construction.  IPv6 sets aside index 0 only. */
    ghost function Reserved(): set<nat>
      requires size > 0
    {
      if family.V4? then {0, 1, size - 1} else {0}
    }

    function Gateway(): (r: Address)
      ensures r.family == family && r.value == base + 1
    {
      AddressAt(1)
    }

    /** The indices of this pool that have a file. */
    ghost function Indices(files: set<Address>): set<nat>
    {
      set i | i in Below(size) && AddressAt(i) in files
    }
  }

  /** An address is in the CIDR exactly when it is the address of an in-range index; the
      out-of-range branch of the allocator is therefore dead. */
  lemma ContainsIffIndexed(c: Config, a: Address)
    requires c.Valid()
    ensures c.Contains(a) <==> a.family == c.family && 0 <= c.IndexOf(a) < c.size
    ensures c.Contains(a) ==> c.AddressAt(c.IndexOf(a)) == a
  {
    Quotient(a.value, c.size);
    Quotient(c.base, c.size);
    SameBlock(c.base / c.size, a.value / c.size, c.size, a.value % c.size, a.value, c.base);
  }

  lemma Quotient(v: nat, n: nat)
    requires n > 0
    ensures v == v / n * n + v % n && v % n < n
  {}

  /** The blocks of size `n` are the quotients. */
  lemma SameBlock(q: nat, p: nat, n: nat, r: nat, v: nat, b: nat)
    requires v == p * n + r && b == q * n && r < n
    ensures p == q <==> b <= v < b + n
  {
    if p < q {
      Scale(p + 1, q, n);
    } else if p > q {
      Scale(q + 1, p, n);
    }
  }

  lemma Scale(a: nat, b: nat, n: nat)
    requires a <= b
    ensures a * n <= b * n
    ensures a * n == (a - 1) * n + n
  {}

  lemma ReservedCount(c: Config)
    requires c.Valid()
    ensures |c.Reserved()| == if c.family.V4? then 3 else 1
    ensures c.Reserved() <= Below(c.size)
  {
    assert c.family.V4? ==> c.Reserved() == {0} + {1} + {c.size - 1};
  }

  /** The in-range indices that a directory listing names. */
  ghost function Listed(c: Config, entries: seq<DirEntry>): set<nat>
  {
    set i | i in Below(c.size) && IpFile(c.AddressAt(i)) in entries
  }

  lemma EmptyListing(c: Config, entries: seq<DirEntry>)
    ensures Listed(c, entries[..0]) == {}
  {}

  lemma ListedSnoc(c: Config, entries: seq<DirEntry>, e: DirEntry)
    requires c.Valid()
    ensures Listed(c, entries + [e]) ==
            if e.IpFile? && c.Contains(e.address) then Listed(c, entries) + {c.IndexOf(e.address)}
            else Listed(c, entries)
  {
    if e.IpFile? {
      ContainsIffIndexed(c, e.address);
    }
    forall i | i in Below(c.size)
      ensures c.AddressAt(i).family == c.family && c.IndexOf(c.AddressAt(i)) == i
    {}
  }

  /** Adding a free index, or removing a taken one, moves the cardinality by one. */
  lemma CountChange(bits: set<nat>, i: nat)
    ensures i !in bits ==> |bits + {i}| == |bits| + 1 && (bits + {i}) - {i} == bits
    ensures i in bits ==> |bits - {i}| == |bits| - 1
  {}

  /** The directory that keeps one empty file per allocated address. */
  class StateDir {
    var files: set<Address>

    constructor (files: set<Address>)
      ensures this.files == files
    {
      this.files := files;
    }

    /** `saveIP`: `os.WriteFile` of an empty file. */
    method Save(a: Address, w: Write) returns (ok: bool)
      modifies this
      ensures ok <==> w.Written?
      ensures files == if w.FailedClean? then old(files) else old(files) + {a}
    {
      if !w.FailedClean? {
        files := files + {a};
      }
      ok := w.Written?;
    }

    /** `removeIP`: errors are logged only. */
    method Remove(a: Address, removed: bool)
      modifies this
      ensures files == if removed then old(files) - {a} else old(files)
    {
      if removed {
        files := files - {a};
      }
    }
  }

  class Allocator {
    const cfg: Config
    const bitmap: Bitmap
    const dir: StateDir?
    var used: int

    ghost predicate Valid()
      reads this, bitmap.words
    {
      && cfg.Valid()
      && bitmap.Valid() && bitmap.size == cfg.size
      && cfg.Reserved() <= bitmap.Contents()
      && used == |bitmap.Contents()|
    }

    ghost function Bits(): set<nat>
      requires Valid()
      reads this, bitmap.words
    {
      bitmap.Contents()
    }

    ghost function Files(): set<Address>
      reads this, dir
    {
      if dir == null then {} else dir.files
    }

    ghost function Repr(): set<object>
    {
      {this, bitmap.words} + if dir == null then {} else {dir}
    }

    constructor Empty(cfg: Config, dir: StateDir?)
      requires cfg.Valid()
      ensures this.cfg == cfg && this.dir == dir && fresh(bitmap.words)
      ensures bitmap.Valid() && bitmap.size == cfg.size && bitmap.Contents() == {} && used == 0
    {
      this.cfg := cfg;
      this.dir := dir;
      bitmap := new Bitmap(cfg.size);
      used := 0;
    }

    /** Sets the reserved addresses aside and counts them. */
    method Reserve()
      requires cfg.Valid() && bitmap.Valid() && bitmap.size == cfg.size
      requires bitmap.Contents() == {} && used == 0
      modifies this, bitmap.words
      ensures Valid() && Bits() == cfg.Reserved()
    {
      hide Members, Aligned, Below;
      ReservedCount(cfg);
      if cfg.family.V4? {
        bitmap.Set(0);
        bitmap.Set(1);
        used := 2;
        if cfg.size > 2 {
          bitmap.Set(cfg.size - 1);
          used := 3;
        }
      } else {
        bitmap.Set(0);
        used := 1;
      }
      assert bitmap.Contents() == cfg.Reserved();
    }

    /** `NewAllocatorWithStateDir` after the CIDR is parsed.  On success the bitmap is the
        reserved indices and those the directory has files for, whatever the listing order
        and whatever else the directory holds. */
    static method New(family: Family, base: nat, hostBits: nat, dir: StateDir?, dirReadable: bool,
                      listing: seq<DirEntry>)
      returns (r: Result<Allocator>)
      requires hostBits <= 20 ==> Aligned(base, Pow2(hostBits))
      requires dir != null ==> forall a :: IpFile(a) in listing <==> a in dir.files
      ensures r == Err(CIDRTooLarge) <==> hostBits > 20
      ensures r == Err(CIDRTooSmall) <==> hostBits <= 20 && Pow2(hostBits) < if family.V4? then 4 else 2
      ensures r.Err? && r.error !in {CIDRTooLarge, CIDRTooSmall} <==>
                hostBits <= 20 && Pow2(hostBits) >= (if family.V4? then 4 else 2) && dir != null && !dirReadable
      ensures r.Ok? ==>
                && r.value.Valid() && r.value.dir == dir && fresh(r.value) && fresh(r.value.bitmap.words)
                && r.value.cfg == Config(family, base, Pow2(hostBits))
                && r.value.Bits() == r.value.cfg.Reserved() + r.value.cfg.Indices(r.value.Files())
    {
      hide Members, Aligned, Below, Pow2;
      if hostBits > 20 {
        return Err(CIDRTooLarge);
      }
      var size := Pow2(hostBits);
      Pow2Bound(hostBits, 20);
      Pow2Of20();
      if size < (if family.V4? then 4 else 2) {
        return Err(CIDRTooSmall);
      }
      var a := new Allocator.Empty(Config(family, base, size), dir);
      a.Reserve();
      if dir != null {
        if !dirReadable {
          return Err(StateDirFailed);
        }
        a.LoadState(listing);
      }
      assert a.Bits() == a.cfg.Reserved() + a.cfg.Indices(a.Files());
      return Ok(a);
    }

    method LoadState(entries: seq<DirEntry>)
      requires Valid()
      modifies this, bitmap.words
      ensures Valid()
      ensures Bits() == old(Bits()) + Listed(cfg, entries)
    {
      hide Members, Aligned, Below, Listed;
      assert Listed(cfg, entries[..0]) == {} by { EmptyListing(cfg, entries); }
      for k := 0 to |entries|
        invariant Valid()
        invariant Bits() == old(Bits()) + Listed(cfg, entries[..k])
      {
        assert entries[..k + 1] == entries[..k] + [entries[k]];
        ListedSnoc(cfg, entries[..k], entries[k]);
        if !entries[k].IpFile? {
          continue;
        }
        var ip := entries[k].address;
        ContainsIffIndexed(cfg, ip);
        if !cfg.Contains(ip) {
          continue;
        }
        var idx := cfg.IndexOf(ip);
        if idx < 0 || idx >= cfg.size {
          continue;
        }
        CountChange(bitmap.Contents(), idx);
        var taken := bitmap.Get(idx);
        if !taken {
          bitmap.Set(idx);
          used := used + 1;
        }
      }
      assert entries[..|entries|] == entries;
    }

    /** Returns the least free address, or fails and leaves the bitmap as it was. */
    method Allocate(w: Write) returns (r: Result<Address>)
      requires Valid()
      modifies Repr()
      ensures Valid()
      ensures old(Bits()) == Below(cfg.size) ==>
                r == Err(NoFreeAddresses) && Bits() == old(Bits()) && Files() == old(Files())
      ensures old(Bits()) != Below(cfg.size) ==>
                exists i: nat ::
                  && IsLeastFree(cfg, old(Bits()), i)
                  && (r == if dir == null || w.Written? then Ok(cfg.AddressAt(i)) else Err(PersistFailed))
                  && Bits() == (if r.Ok? then old(Bits()) + {i} else old(Bits()))
                  && Files() == if dir == null || w.FailedClean? then old(Files())
                                else old(Files()) + {cfg.AddressAt(i)}
    {
      hide Members, Aligned, Below;
      var idx := bitmap.FindFree();
      if idx < 0 {
        return Err(NoFreeAddresses);
      }
      assert IsLeastFree(cfg, Bits(), idx);
      CountChange(Bits(), idx);
      bitmap.Set(idx);
      used := used + 1;
      var ip := cfg.AddressAt(idx);
      if dir != null {
        var saved := dir.Save(ip, w);
        if !saved {
          bitmap.Clear(idx);
          used := used - 1;
          return Err(PersistFailed);
        }
      }
      return Ok(ip);
    }

    /** Claims one address.  It succeeds exactly for a free address of the CIDR whose file
        could be written. */
    method AllocateSpecific(ip: Address, w: Write) returns (r: Result<()>)
      requires Valid()
      modifies Repr()
      ensures Valid()
      ensures !cfg.Contains(ip) ==> r == Err(OutsideCIDR)
      ensures cfg.Contains(ip) && cfg.IndexOf(ip) in old(Bits()) ==> r == Err(AlreadyAllocated)
      ensures cfg.Contains(ip) && cfg.IndexOf(ip) !in old(Bits()) ==>
                r == if dir == null || w.Written? then Ok(()) else Err(PersistFailed)
      ensures Bits() == if r.Ok? then old(Bits()) + {cfg.IndexOf(ip)} else old(Bits())
      ensures Files() == if (r.Ok? && dir != null) || (r == Err(PersistFailed) && w.FailedLeavingFile?)
                         then old(Files()) + {ip} else old(Files())
    {
      hide Members, Aligned, Below;
      ContainsIffIndexed(cfg, ip);
      if !cfg.Contains(ip) {
        return Err(OutsideCIDR);
      }
      var idx := cfg.IndexOf(ip);
      if idx < 0 || idx >= cfg.size {
        assert false;
        return Err(OutOfRange);
      }
      var taken := bitmap.Get(idx);
      if taken {
        return Err(AlreadyAllocated);
      }
      CountChange(Bits(), idx);
      bitmap.Set(idx);
      used := used + 1;
      if dir != null {
        var saved := dir.Save(ip, w);
        if !saved {
          bitmap.Clear(idx);
          used := used - 1;
          return Err(PersistFailed);
        }
      }
      return Ok(());
    }

    /** Frees one address.  It succeeds exactly for an allocated, unreserved address of the
        CIDR; a failed file removal is not reported. */
    method Release(ip: Address, removed: bool) returns (r: Result<()>)
      requires Valid()
      modifies Repr()
      ensures Valid()
      ensures !cfg.Contains(ip) ==> r == Err(OutsideCIDR)
      ensures r == Err(ReleaseNetwork) <==> cfg.Contains(ip) && cfg.IndexOf(ip) == 0
      ensures r == Err(ReleaseGateway) <==> cfg.Contains(ip) && cfg.family.V4? && cfg.IndexOf(ip) == 1
      ensures r == Err(ReleaseBroadcast) <==> cfg.Contains(ip) && cfg.family.V4? && cfg.IndexOf(ip) == cfg.size - 1
      ensures cfg.Contains(ip) && cfg.IndexOf(ip) !in old(Bits()) ==> r == Err(NotAllocated)
      ensures r.Ok? <==> cfg.Contains(ip) && cfg.IndexOf(ip) in old(Bits()) - cfg.Reserved()
      ensures Bits() == if r.Ok? then old(Bits()) - {cfg.IndexOf(ip)} else old(Bits())
      ensures Files() == if r.Ok? && removed then old(Files()) - {ip} else old(Files())
    {
      hide Members, Aligned, Below;
      ContainsIffIndexed(cfg, ip);
      if !cfg.Contains(ip) {
        return Err(OutsideCIDR);
      }
      var idx := cfg.IndexOf(ip);
      if idx < 0 || idx >= cfg.size {
        assert false;
        return Err(OutOfRange);
      }
      if idx == 0 {
        return Err(ReleaseNetwork);
      }
      if cfg.family.V4? {
        if idx == 1 {
          return Err(ReleaseGateway);
        }
        if idx == cfg.size - 1 {
          return Err(ReleaseBroadcast);
        }
      }
      var taken := bitmap.Get(idx);
      if !taken {
        return Err(NotAllocated);
      }
      CountChange(Bits(), idx);
      bitmap.Clear(idx);
      used := used - 1;
      if dir != null {
        dir.Remove(ip, removed);
      }
      return Ok(());
    }

    /** The number of free indices, not merely what the counter says. */
    method Available() returns (n: int)
      requires Valid()
      ensures n == |Below(cfg.size) - Bits()|
    {
      hide Members, Aligned, Below;
      n := cfg.size - used;
      assert Bits() <= Below(cfg.size);
      SubsetComplement(Bits(), Below(cfg.size));
    }
  }

  lemma SubsetComplement<T>(s: set<T>, t: set<T>)
    requires s <= t
    ensures |t - s| == |t| - |s|
  {
    assert t == s + (t - s);
  }

  function Pow2(n: nat): (r: nat)
    ensures r > 0
  {
    if n == 0 then 1 else 2 * Pow2(n - 1)
  }

  lemma Pow2Bound(n: nat, limit: nat)
    requires n <= limit
    ensures Pow2(n) <= Pow2(limit)
    decreases limit - n
  {
    if n < limit {
      Pow2Bound(n + 1, limit);
    }
  }

  lemma Pow2Of20()
    ensures Pow2(20) == 0x10_0000
  {
    assert Pow2(10) == 1024;
  }

  /** `i` is the least index of the pool that is not in `bits`. */
  ghost predicate IsLeastFree(c: Config, bits: set<nat>, i: nat)
  {
    && i < c.size && i !in bits
    && forall j: nat :: j < i ==> j in bits
  }
}
