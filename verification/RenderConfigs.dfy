/** Render configurations: one for each swap of a NodeSwap, named by its kind and its position. */
module RenderConfigs {
  import opened Wrappers
  import Decimal

  type Int32 = x: int | -0x8000_0000 <= x < 0x8000_0000
  type Int64 = x: int | -0x8000_0000_0000_0000 <= x < 0x8000_0000_0000_0000

  const FILE_BASED_SWAP := "file"
  const SWAP_ON_ZRAM := "zram"
  const SWAP_ON_DISK := "disk"

  const FILE_BASED_PREFIX := "99-filebased-swap"
  const DISK_BASED_PREFIX := "99-diskbased-swap"
  const ZRAM_BASED_PREFIX := "99-zrambased-swap"
  const KUBELET_CGROUPS_NAME := "99-swap-kubelet-cgroups"

  /** The file section of a swap; a quantity is its number of bytes. */
  datatype SwapFile = SwapFile(path: string, size: Int64)

  datatype SwapSpec = SwapSpec(priority: Int32, swapType: string, file: Option<SwapFile>)

  datatype RenderConfig = RenderConfig(
    name: string, index: nat, enableFileBasedSwap: bool, enableDiskBasedSwap: bool, enableZramBasedSwap: bool,
    swapFileSize: string, swapFilePath: string, swapDevicePriority: nat)

  const EMPTY: RenderConfig := RenderConfig("", 0, false, false, false, "", "", 0)

  datatype SizeError = NotPositive(bytes: int) | NotKibibytes(bytes: int)

  /** NilFileSection is the run-time panic of a file-based swap without a file section. */
  datatype RenderError = UnknownSwapType(swapType: string) | BadSize(error: SizeError) | NilFileSection

  // ---------- sizes ----------

  datatype SizeUnit = SizeUnit(name: string, size: nat)

  const UNITS: seq<SizeUnit> :=
    [SizeUnit("Gi", 1024 * 1024 * 1024), SizeUnit("Mi", 1024 * 1024), SizeUnit("Ki", 1024)]

  function SizeIn(bytes: Int64, u: SizeUnit): (r: string)
    requires bytes > 0 && u.size > 0
  {
    Decimal.Print(bytes / u.size) + u.name
  }

  /** The size in the first unit that divides it. */
  function SizeArg(bytes: Int64): (r: Result<string, SizeError>) {
    if bytes <= 0 then Err(NotPositive(bytes))
    else if bytes % UNITS[0].size == 0 then Ok(SizeIn(bytes, UNITS[0]))
    else if bytes % UNITS[1].size == 0 then Ok(SizeIn(bytes, UNITS[1]))
    else if bytes % UNITS[2].size == 0 then Ok(SizeIn(bytes, UNITS[2]))
    else Err(NotKibibytes(bytes))
  }

  method MkswapSizeArg(bytes: Int64) returns (r: Result<string, SizeError>)
    ensures r == SizeArg(bytes)
  {
    if bytes <= 0 {
      return Err(NotPositive(bytes));
    }
    for k := 0 to |UNITS|
      invariant forall l :: 0 <= l < k ==> bytes % UNITS[l].size != 0
    {
      if bytes % UNITS[k].size == 0 {
        return Ok(SizeIn(bytes, UNITS[k]));
      }
    }
    r := Err(NotKibibytes(bytes));
  }

  /** Reads a decimal number with a unit behind it. */
  function ParseSize(s: string): (r: Option<nat>) {
    if |s| < 3 || !Decimal.AllDigits(s[..|s| - 2]) then None
    else
      var n, suffix := Decimal.Parse(s[..|s| - 2]), s[|s| - 2..];
      if suffix == "Gi" then Some(n * (1024 * 1024 * 1024))
      else if suffix == "Mi" then Some(n * (1024 * 1024))
      else if suffix == "Ki" then Some(n * 1024)
      else None
  }

  lemma {:induction false} TextParses(number: string, unit: string)
    requires number != [] && Decimal.AllDigits(number) && unit in {"Gi", "Mi", "Ki"}
    ensures var n := Decimal.Parse(number);
            ParseSize(number + unit)
            == Some(if unit == "Gi" then n * (1024 * 1024 * 1024) else if unit == "Mi" then n * (1024 * 1024) else n * 1024)
    ensures (number + unit)[|number|..] == unit
  {
    var s := number + unit;
    assert s[..|s| - 2] == number && s[|s| - 2..] == unit;
  }

  lemma {:induction false} SizeInParses(bytes: Int64, k: nat)
    requires bytes > 0 && k < |UNITS| && bytes % UNITS[k].size == 0
    ensures var s := SizeIn(bytes, UNITS[k]);
            |s| >= 3 && s[|s| - 2..] == UNITS[k].name && ParseSize(s) == Some(bytes)
  {
    var n, unit := bytes / UNITS[k].size, UNITS[k].name;
    assert n * UNITS[k].size == bytes;
    Decimal.ParsePrint(n);
    TextParses(Decimal.Print(n), unit);
  }

  lemma {:induction false} MultipleOfMultiple(x: int, unit: int, times: int)
    requires unit > 0 && times > 0 && x % (unit * times) == 0
    ensures x % unit == 0
  {
    var q := x / (unit * times);
    assert x == unit * (times * q);
    RemainderOfMultiple(times * q, unit);
  }

  lemma {:induction false} RemainderOfMultiple(q: int, unit: int)
    requires unit > 0
    ensures (unit * q) % unit == 0
  {
    var d := q - (unit * q) / unit;
    assert (unit * q) % unit == unit * d;
    assert d != 0 ==> unit * d >= unit || unit * d < 0;
  }

  /** A multiple of a unit is a multiple of every smaller one. */
  lemma {:induction false} UnitsNest(bytes: Int64)
    ensures bytes % UNITS[0].size == 0 ==> bytes % UNITS[1].size == 0
    ensures bytes % UNITS[1].size == 0 ==> bytes % UNITS[2].size == 0
  {
    if bytes % (1048576 * 1024) == 0 {
      MultipleOfMultiple(bytes, 1048576, 1024);
    }
    if bytes % (1024 * 1024) == 0 {
      MultipleOfMultiple(bytes, 1024, 1024);
    }
  }

  /** `s` is the number of bytes written in the `k`-th unit, which is the largest dividing it. */
  ghost predicate LargestUnit(bytes: Int64, s: string, k: nat) {
    && k < |UNITS| && |s| >= 3 && s[|s| - 2..] == UNITS[k].name
    && bytes % UNITS[k].size == 0
    && forall l :: 0 <= l < |UNITS| && UNITS[l].size > UNITS[k].size ==> bytes % UNITS[l].size != 0
  }

  /** `s` reads back as the number of bytes, and no larger unit divides them. */
  ghost predicate SizeWritten(bytes: Int64, s: string) {
    ParseSize(s) == Some(bytes) && exists k :: LargestUnit(bytes, s, k)
  }

  /** A size can be printed exactly when it is a positive multiple of 1024. Reading the printed size
      gives the exact number of bytes, and its unit is the largest that divides them. */
  lemma {:induction false} SizeArgExactly(bytes: Int64)
    ensures SizeArg(bytes).Ok? <==> bytes > 0 && bytes % 1024 == 0
    ensures SizeArg(bytes).Ok? ==> SizeWritten(bytes, SizeArg(bytes).value)
    ensures SizeArg(bytes).Err? ==> SizeArg(bytes).error == if bytes <= 0 then NotPositive(bytes) else NotKibibytes(bytes)
  {
    UnitsNest(bytes);
    if bytes > 0 && bytes % UNITS[2].size == 0 {
      var k := if bytes % UNITS[0].size == 0 then 0 else if bytes % UNITS[1].size == 0 then 1 else 2;
      SizeInParses(bytes, k);
      assert LargestUnit(bytes, SizeIn(bytes, UNITS[k]), k);
    }
  }

  /** A positive size that is no multiple of 1024 is an error and not printed in bytes. */
  lemma {:induction false} NoRawBytes()
    ensures SizeArg(1000) == Err(NotKibibytes(1000))
  {
    assert 1000 % UNITS[2].size == 1000;
  }

  /** Different sizes are printed differently. */
  lemma {:induction false} SizeArgInjective(a: Int64, b: Int64)
    requires SizeArg(a).Ok? && SizeArg(a) == SizeArg(b)
    ensures a == b
  {
    SizeArgExactly(a);
    SizeArgExactly(b);
  }

  // ---------- names ----------

  predicate KnownType(swapType: string) {
    swapType in {FILE_BASED_SWAP, SWAP_ON_DISK, SWAP_ON_ZRAM}
  }

  function Prefix(swapType: string): (r: string)
    requires KnownType(swapType)
  {
    if swapType == FILE_BASED_SWAP then FILE_BASED_PREFIX
    else if swapType == SWAP_ON_DISK then DISK_BASED_PREFIX
    else ZRAM_BASED_PREFIX
  }

  function Name(id: nat, swapType: string): (r: string)
    requires KnownType(swapType)
  {
    Prefix(swapType) + "-" + Decimal.Print(id)
  }

  /** A name tells both the position and the kind, and is never the kubelet one. */
  lemma {:induction false} NameInjective(i: nat, a: string, j: nat, b: string)
    requires KnownType(a) && KnownType(b)
    ensures Name(i, a) == Name(j, b) ==> i == j && a == b
    ensures Name(i, a) != KUBELET_CGROUPS_NAME
  {
    var x, y := Name(i, a), Name(j, b);
    assert x[..17] == Prefix(a) && y[..17] == Prefix(b);
    assert x[18..] == Decimal.Print(i) && y[18..] == Decimal.Print(j);
    Decimal.ParsePrint(i);
    Decimal.ParsePrint(j);
    assert x[3] == Prefix(a)[3] && y[3] == Prefix(b)[3];
  }

  // ---------- configurations ----------

  /** Go's conversion of a signed number to a 64-bit unsigned one. */
  function ToUint(p: Int32): (r: nat) {
    if p < 0 then p + 0x1_0000_0000_0000_0000 else p
  }

  function Rendered(id: nat, swap: SwapSpec): (r: Result<RenderConfig, RenderError>) {
    if !KnownType(swap.swapType) then Err(UnknownSwapType(swap.swapType))
    else
      var named := EMPTY.(name := Name(id, swap.swapType), swapDevicePriority := ToUint(swap.priority));
      if swap.swapType != FILE_BASED_SWAP then Ok(named)
      else if swap.file.None? then Err(NilFileSection)
      else
        match SizeArg(swap.file.value.size)
        case Err(e) => Err(BadSize(e))
        case Ok(size) => Ok(named.(swapFileSize := size, swapFilePath := swap.file.value.path))
  }

  /** The configuration the kind's generator returns replaces the one that was being filled in, so
      the index and the enabling flag set before are lost. */
  method Render(id: nat, swap: SwapSpec) returns (r: Result<RenderConfig, RenderError>)
    ensures r == Rendered(id, swap)
  {
    var config := EMPTY.(index := id);
    if !KnownType(swap.swapType) {
      return Err(UnknownSwapType(swap.swapType));
    }
    var name := Name(id, swap.swapType);
    if swap.swapType == FILE_BASED_SWAP {
      config := config.(enableFileBasedSwap := true);
      if swap.file.None? {
        return Err(NilFileSection);
      }
      var size := MkswapSizeArg(swap.file.value.size);
      if size.Err? {
        return Err(BadSize(size.error));
      }
      config := EMPTY.(swapFileSize := size.value, swapFilePath := swap.file.value.path);
    } else if swap.swapType == SWAP_ON_DISK {
      config := config.(enableDiskBasedSwap := true);
      config := EMPTY;
    } else {
      config := config.(enableZramBasedSwap := true);
      config := EMPTY;
    }
    config := config.(name := name);
    config := config.(swapDevicePriority := ToUint(swap.priority));
    r := Ok(config);
  }

  /** All values of a list of results, or the first error in it. */
  function Collect<C, E>(rs: seq<Result<C, E>>): (r: Result<seq<C>, E>) {
    if rs == [] then Ok([])
    else
      var n := |rs| - 1;
      match Collect(rs[..n])
      case Err(e) => Err(e)
      case Ok(cs) => if rs[n].Err? then Err(rs[n].error) else Ok(cs + [rs[n].value])
  }

  lemma {:induction false} CollectExactly<C, E>(rs: seq<Result<C, E>>)
    ensures Collect(rs).Ok? ==> |Collect(rs).value| == |rs| && forall i :: 0 <= i < |rs| ==> rs[i] == Ok(Collect(rs).value[i])
    ensures Collect(rs).Err? ==>
              exists i :: 0 <= i < |rs| && rs[i] == Err(Collect(rs).error) && (forall j :: 0 <= j < i ==> rs[j].Ok?)
  {
    if rs != [] {
      var init := rs[..|rs| - 1];
      CollectExactly(init);
      if Collect(init).Err? {
        var i :| 0 <= i < |init| && init[i] == Err(Collect(init).error) && (forall j :: 0 <= j < i ==> init[j].Ok?);
        assert rs[i] == Err(Collect(rs).error);
        assert forall j :: 0 <= j < i ==> rs[j] == init[j];
      } else {
        assert forall i :: 0 <= i < |init| ==> rs[i] == init[i];
      }
    }
  }

  lemma {:induction false} CollectStops<C, E>(rs: seq<Result<C, E>>, n: nat)
    requires n <= |rs| && Collect(rs[..n]).Err?
    ensures Collect(rs) == Collect(rs[..n])
  {
    if n == |rs| {
      assert rs[..n] == rs;
    } else {
      assert rs[..|rs| - 1][..n] == rs[..n];
      CollectStops(rs[..|rs| - 1], n);
    }
  }

  function RenderedAll(swaps: seq<SwapSpec>): (r: seq<Result<RenderConfig, RenderError>>) {
    seq(|swaps|, i requires 0 <= i < |swaps| => Rendered(i, swaps[i]))
  }

  function Created(swaps: seq<SwapSpec>): (r: Result<seq<RenderConfig>, RenderError>) {
    Collect(RenderedAll(swaps))
  }

  method Create(swaps: seq<SwapSpec>) returns (r: Result<seq<RenderConfig>, RenderError>)
    ensures r == Created(swaps)
  {
    var configs := [];
    ghost var all := RenderedAll(swaps);
    for idx := 0 to |swaps|
      invariant Ok(configs) == Collect(all[..idx])
    {
      var config := Render(idx, swaps[idx]);
      assert all[..idx + 1][..idx] == all[..idx] && all[idx] == config;
      if config.Err? {
        CollectStops(all, idx + 1);
        return Err(config.error);
      }
      configs := configs + [config.value];
    }
    assert all[..|swaps|] == all;
    r := Ok(configs);
  }

  /** A swap of a known kind whose file, if it is a file-based one, has a printable size. */
  predicate Renderable(swap: SwapSpec) {
    && KnownType(swap.swapType)
    && (swap.swapType == FILE_BASED_SWAP ==>
          swap.file.Some? && swap.file.value.size > 0 && swap.file.value.size % 1024 == 0)
  }

  /** The name is the prefix of the kind, a dash, and the position in decimal. */
  ghost predicate Names(name: string, i: nat, swapType: string) {
    var number := Decimal.Print(i);
    if swapType == "file" then name == "99-filebased-swap-" + number
    else if swapType == "disk" then name == "99-diskbased-swap-" + number
    else swapType == "zram" && name == "99-zrambased-swap-" + number
  }

  /** What the configuration of the `i`-th swap must be. */
  ghost predicate Describes(config: RenderConfig, i: nat, swap: SwapSpec) {
    && KnownType(swap.swapType)
    && Names(config.name, i, swap.swapType)
    && config.swapDevicePriority < 0x1_0000_0000_0000_0000
    && config.swapDevicePriority % 0x1_0000_0000_0000_0000 == swap.priority % 0x1_0000_0000_0000_0000
    && config.index == 0
    && !config.enableFileBasedSwap && !config.enableDiskBasedSwap && !config.enableZramBasedSwap
    && (if swap.swapType == FILE_BASED_SWAP then
          swap.file.Some? && config.swapFilePath == swap.file.value.path
          && SizeWritten(swap.file.value.size, config.swapFileSize)
        else config.swapFilePath == config.swapFileSize == "")
  }

  /** What is wrong with a swap that is not renderable: its kind, its missing file section, or its size. */
  ghost predicate Faults(swap: SwapSpec, error: RenderError) {
    match error
    case UnknownSwapType(swapType) => swapType == swap.swapType && swap.swapType !in {"file", "disk", "zram"}
    case NilFileSection => swap.swapType == "file" && swap.file.None?
    case BadSize(NotPositive(bytes)) =>
      swap.swapType == "file" && swap.file.Some? && bytes == swap.file.value.size <= 0
    case BadSize(NotKibibytes(bytes)) =>
      swap.swapType == "file" && swap.file.Some? && bytes == swap.file.value.size > 0 && bytes % 1024 != 0
  }

  /** The names given are exactly these. */
  lemma {:induction false} NameNames(name: string, i: nat, swapType: string)
    requires KnownType(swapType)
    ensures Names(name, i, swapType) <==> name == Name(i, swapType)
  {
    assert FILE_BASED_PREFIX + "-" == "99-filebased-swap-";
    assert DISK_BASED_PREFIX + "-" == "99-diskbased-swap-";
    assert ZRAM_BASED_PREFIX + "-" == "99-zrambased-swap-";
  }

  lemma {:induction false} RenderedDescribes(id: nat, swap: SwapSpec)
    requires Renderable(swap)
    ensures Rendered(id, swap).Ok? && Describes(Rendered(id, swap).value, id, swap)
  {
    var r := Rendered(id, swap);
    NameNames(Name(id, swap.swapType), id, swap.swapType);
    if swap.swapType == FILE_BASED_SWAP {
      SizeArgExactly(swap.file.value.size);
    }
    assert r.Ok? && r.value.name == Name(id, swap.swapType);
  }

  lemma {:induction false} RenderedFails(id: nat, swap: SwapSpec)
    requires !Renderable(swap)
    ensures Rendered(id, swap).Err? && Faults(swap, Rendered(id, swap).error)
  {
    if swap.swapType == FILE_BASED_SWAP && swap.file.Some? {
      SizeArgExactly(swap.file.value.size);
    }
  }

  /** A swap that is renderable is described, and any other fails with what is wrong with it. */
  lemma {:induction false} RenderedExactly(id: nat, swap: SwapSpec)
    ensures Rendered(id, swap).Ok? <==> Renderable(swap)
    ensures Rendered(id, swap).Ok? ==> Describes(Rendered(id, swap).value, id, swap)
    ensures Rendered(id, swap).Err? ==> Faults(swap, Rendered(id, swap).error)
  {
    if Renderable(swap) {
      RenderedDescribes(id, swap);
    } else {
      RenderedFails(id, swap);
    }
  }

  /** Creation succeeds exactly when every swap is renderable. Then there is one configuration for
      each swap, in order, and the names are pairwise distinct and none is the kubelet one. A
      failure is that of the first swap that is not renderable. */
  lemma {:induction false} CreatedExactly(swaps: seq<SwapSpec>)
    ensures Created(swaps).Ok? <==> forall i :: 0 <= i < |swaps| ==> Renderable(swaps[i])
    ensures Created(swaps).Ok? ==>
              var configs := Created(swaps).value;
              && |configs| == |swaps|
              && (forall i :: 0 <= i < |swaps| ==> Describes(configs[i], i, swaps[i]))
              && (forall i, j :: 0 <= i < j < |swaps| ==> configs[i].name != configs[j].name)
              && (forall i :: 0 <= i < |swaps| ==> configs[i].name != KUBELET_CGROUPS_NAME)
    ensures Created(swaps).Err? ==>
              exists i :: 0 <= i < |swaps| && !Renderable(swaps[i]) && Faults(swaps[i], Created(swaps).error)
                          && (forall j :: 0 <= j < i ==> Renderable(swaps[j]))
  {
    var all := RenderedAll(swaps);
    CollectExactly(all);
    forall i | 0 <= i < |swaps| ensures all[i].Ok? <==> Renderable(swaps[i]) {
      RenderedExactly(i, swaps[i]);
    }
    if Created(swaps).Ok? {
      var configs := Created(swaps).value;
      forall i | 0 <= i < |swaps| ensures Describes(configs[i], i, swaps[i]) {
        assert all[i] == Ok(configs[i]);
        RenderedExactly(i, swaps[i]);
      }
      DescribedNamesDiffer(configs, swaps);
    } else {
      var i :| 0 <= i < |all| && all[i] == Err(Created(swaps).error) && (forall j :: 0 <= j < i ==> all[j].Ok?);
      RenderedExactly(i, swaps[i]);
      assert Faults(swaps[i], Created(swaps).error);
    }
  }

  /** A file-based swap has no file section, and every swap before it is renderable. */
  predicate MissesFile(swaps: seq<SwapSpec>) {
    exists i :: 0 <= i < |swaps| && swaps[i].swapType == FILE_BASED_SWAP && swaps[i].file.None?
                && (forall j :: 0 <= j < i ==> Renderable(swaps[j]))
  }

  /** Creation panics exactly when it comes upon a file-based swap without a file section. */
  lemma {:induction false} PanicsExactly(swaps: seq<SwapSpec>)
    ensures Created(swaps) == Err(NilFileSection) <==> MissesFile(swaps)
  {
    CreatedExactly(swaps);
    if i :| 0 <= i < |swaps| && swaps[i].swapType == FILE_BASED_SWAP && swaps[i].file.None?
            && (forall j :: 0 <= j < i ==> Renderable(swaps[j])) {
      assert !Renderable(swaps[i]);
      var k :| 0 <= k < |swaps| && !Renderable(swaps[k]) && Faults(swaps[k], Created(swaps).error)
               && (forall j :: 0 <= j < k ==> Renderable(swaps[j]));
      assert k == i;
    }
  }

  lemma {:induction false} DescribedNamesDiffer(configs: seq<RenderConfig>, swaps: seq<SwapSpec>)
    requires |configs| == |swaps| && forall i :: 0 <= i < |swaps| ==> Describes(configs[i], i, swaps[i])
    ensures forall i, j :: 0 <= i < j < |swaps| ==> configs[i].name != configs[j].name
    ensures forall i :: 0 <= i < |swaps| ==> configs[i].name != KUBELET_CGROUPS_NAME
  {
    forall i | 0 <= i < |swaps| ensures KnownType(swaps[i].swapType) && configs[i].name == Name(i, swaps[i].swapType) {
      assert Describes(configs[i], i, swaps[i]);
      NameNames(configs[i].name, i, swaps[i].swapType);
    }
    forall i, j | 0 <= i < j < |swaps| ensures configs[i].name != configs[j].name {
      NameInjective(i, swaps[i].swapType, j, swaps[j].swapType);
    }
    forall i | 0 <= i < |swaps| ensures configs[i].name != KUBELET_CGROUPS_NAME {
      NameInjective(i, swaps[i].swapType, i, swaps[i].swapType);
    }
  }
}
