/** The client-side light-swap helpers of Swaplace: packing one asset into one
    256-bit word, unpacking the configuration word, validating a swap and
    composing one from parallel address/amount lists.

    The block timestamp that the helpers read from the network is a parameter
    (`now`), and the address strings they validate are abstracted by
    `AddressString`. */
module LightSwapFactory {
  import opened Bits

  /** The errors the helpers throw, one constructor per message. */
  datatype Error =
    | InvalidAddressFormat
    | AmountOrIdCannotBeNegative
    | AmountOrIdTooBig          // "Can't be bigger than uint96"
    | InvalidExpiryTooBig
    | InvalidExpiryInThePast
    | InvalidAssetsLength

  datatype Result<T> = Ok(value: T) | Err(error: Error)

  /** A 160-bit account or contract identifier. */
  type Address = a: nat | a < TWO_160

  /** An address argument: either a string that the address check accepts,
      together with the number it denotes, or one that it rejects. */
  datatype AddressString = WellFormed(value: Address) | NotAnAddress

  /** One asset packed into one word: contract address in the high 160 bits,
      amount or token id in the low 96 bits. */
  datatype LightAsset = LightAsset(addrAmountOrId: nat)

  datatype LightSwap = LightSwap(config: nat, biding: seq<LightAsset>, asking: seq<LightAsset>)

  /** The four fields of a configuration word, in the order decodeConfig returns them. */
  datatype ConfigFields = ConfigFields(allowed: nat, expiry: nat, valueReceiver: nat, valueToReceive: nat)

  // ---------------------------------------------------------------------------
  // Widths of the packed fields

  const TWO_8: nat := 0x1_00
  const TWO_32: nat := 0x1_0000_0000
  const TWO_56: nat := 0x1_0000_0000_0000_00
  const TWO_64: nat := 0x1_0000_0000_0000_0000
  const TWO_96: nat := 0x1_0000_0000_0000_0000_0000_0000
  const TWO_160: nat := 0x1_0000_0000_0000_0000_0000_0000_0000_0000_0000_0000
  const TWO_256: nat := 0x1_0000_0000_0000_0000_0000_0000_0000_0000_0000_0000_0000_0000_0000_0000_0000_0000

  /** The powers of two the shifts and masks of the codec use. */
  lemma PowersOfTwo()
    ensures Pow2(8) == TWO_8 && Pow2(32) == TWO_32 && Pow2(56) == TWO_56 && Pow2(64) == TWO_64
    ensures Pow2(96) == TWO_96 && Pow2(160) == TWO_160 && Pow2(256) == TWO_256
  {
    SmallPowers();
    Pow2Add(8, 48);
    Pow2Add(16, 32);
    Pow2Add(32, 32);
    WidePowers();
  }

  lemma SmallPowers()
    ensures Pow2(8) == TWO_8 && Pow2(16) == 0x1_0000 && Pow2(32) == TWO_32
  {
    assert Pow2(1) == 2;
    Pow2Add(1, 1);
    Pow2Add(2, 2);
    Pow2Add(4, 4);
    Pow2Add(8, 8);
    Pow2Add(16, 16);
  }

  lemma WidePowers()
    requires Pow2(32) == TWO_32 && Pow2(64) == TWO_64
    ensures Pow2(96) == TWO_96 && Pow2(160) == TWO_160 && Pow2(256) == TWO_256
  {
    Pow2Add(32, 64);
    Pow2Add(64, 96);
    Pow2Add(96, 160);
  }

  // ---------------------------------------------------------------------------
  // Assets

  /** Validates an address and an amount or id, in that order, and packs them
      as `addr << 96 | amountOrId`. */
  function MakeLightAsset(addr: AddressString, amountOrId: int): (r: Result<LightAsset>)
    ensures addr.NotAnAddress? ==> r == Err(InvalidAddressFormat)
    ensures addr.WellFormed? && amountOrId < 0 ==> r == Err(AmountOrIdCannotBeNegative)
    ensures addr.WellFormed? && amountOrId >= TWO_96 ==> r == Err(AmountOrIdTooBig)
    ensures r.Ok? <==> addr.WellFormed? && 0 <= amountOrId < TWO_96
    ensures r.Ok? ==> addr.WellFormed? && r.value.addrAmountOrId == addr.value * TWO_96 + amountOrId
    ensures r.Ok? ==> r.value.addrAmountOrId < TWO_256
  {
    if addr.NotAnAddress? then Err(InvalidAddressFormat)
    else if amountOrId < 0 then Err(AmountOrIdCannotBeNegative)
    else if amountOrId > TWO_96 - 1 then Err(AmountOrIdTooBig)
    else
      PowersOfTwo();
      OrShiftedIsAdd(addr.value, amountOrId, 96);
      Ok(LightAsset(Or(addr.value * TWO_96, amountOrId)))
  }

  /** `word >> 96`: the contract address of a packed asset. */
  function AssetAddress(asset: LightAsset): nat
  {
    asset.addrAmountOrId / TWO_96
  }

  /** `word & ((1 << 96) - 1)`: the amount or token id of a packed asset. */
  function AssetAmountOrId(asset: LightAsset): nat
  {
    And(asset.addrAmountOrId, TWO_96 - 1)
  }

  /** Packing loses nothing: the address and amount come back out of the word. */
  lemma LightAssetRoundTrip(addr: AddressString, amountOrId: int, asset: LightAsset)
    requires MakeLightAsset(addr, amountOrId) == Ok(asset)
    ensures addr.WellFormed? && addr.value == AssetAddress(asset)
    ensures amountOrId == AssetAmountOrId(asset)
  {
    var w := asset.addrAmountOrId;
    PowersOfTwo();
    DivModUnique(w, TWO_96, addr.value, amountOrId);
    AndOnesIsMod(w, 96);
  }

  /** Every 256-bit word is the packing of its own address and amount fields. */
  lemma LightAssetRepack(word: nat)
    requires word < TWO_256
    ensures AssetAddress(LightAsset(word)) < TWO_160
      && MakeLightAsset(WellFormed(AssetAddress(LightAsset(word))), AssetAmountOrId(LightAsset(word)))
         == Ok(LightAsset(word))
  {
    PowersOfTwo();
    DivBound(word, TWO_96, TWO_160);
    AndOnesIsMod(word, 96);
    var hi, lo := word / TWO_96, word % TWO_96;
    assert AssetAddress(LightAsset(word)) == hi && AssetAmountOrId(LightAsset(word)) == lo;
    assert word == hi * TWO_96 + lo;
  }

  // ---------------------------------------------------------------------------
  // Configuration word

  /** Splits a configuration word into allowed counterparty (bits 96..255),
      expiry (bits 64..95), value receiver (bits 56..63) and value to receive
      (bits 0..55); each field is bounded by its mask. */
  function DecodeConfig(config: nat): (r: ConfigFields)
    ensures r.allowed < TWO_160
    ensures r.expiry < TWO_32
    ensures r.valueReceiver < TWO_8
    ensures r.valueToReceive < TWO_56
  {
    AndAtMost(config / TWO_96, TWO_160 - 1);
    AndAtMost(config / TWO_64, TWO_32 - 1);
    AndAtMost(config / TWO_56, TWO_8 - 1);
    AndAtMost(config, TWO_56 - 1);
    ConfigFields(
      And(config / TWO_96, TWO_160 - 1),
      And(config / TWO_64, TWO_32 - 1),
      And(config / TWO_56, TWO_8 - 1),
      And(config, TWO_56 - 1))
  }

  /** The fields fit the widths of the layout. */
  predicate FitsConfig(f: ConfigFields)
  {
    f.allowed < TWO_160 && f.expiry < TWO_32 && f.valueReceiver < TWO_8 && f.valueToReceive < TWO_56
  }

  /** The configuration layout read off decodeConfig's shifts and masks:
      `allowed << 96 | expiry << 64 | valueReceiver << 56 | valueToReceive`.
      A modelling helper: the on-chain encoder is not part of this model. */
  function PackConfig(f: ConfigFields): nat
  {
    f.allowed * TWO_96 + f.expiry * TWO_64 + f.valueReceiver * TWO_56 + f.valueToReceive
  }

  /** Decoding a packed configuration gives back every field, and the packed word fits 256 bits. */
  lemma ConfigRoundTrip(f: ConfigFields)
    requires FitsConfig(f)
    ensures PackConfig(f) < TWO_256
    ensures DecodeConfig(PackConfig(f)) == f
  {
    PowersOfTwo();
    PackedAllowed(f);
    PackedExpiry(f);
    PackedLowFields(f);
  }

  lemma PackedAllowed(f: ConfigFields)
    requires FitsConfig(f)
    ensures And(PackConfig(f) / TWO_96, TWO_160 - 1) == f.allowed
  {
    var c := PackConfig(f);
    PowersOfTwo();
    DivModUnique(c, TWO_96, f.allowed, f.expiry * TWO_64 + f.valueReceiver * TWO_56 + f.valueToReceive);
    DivModUnique(f.allowed, TWO_160, 0, f.allowed);
    AndOnesIsMod(c / TWO_96, 160);
  }

  lemma PackedExpiry(f: ConfigFields)
    requires FitsConfig(f)
    ensures And(PackConfig(f) / TWO_64, TWO_32 - 1) == f.expiry
  {
    var c := PackConfig(f);
    var hi := f.allowed * TWO_32 + f.expiry;
    PowersOfTwo();
    DivModUnique(c, TWO_64, hi, f.valueReceiver * TWO_56 + f.valueToReceive);
    DivModUnique(hi, TWO_32, f.allowed, f.expiry);
    AndOnesIsMod(c / TWO_64, 32);
  }

  lemma PackedLowFields(f: ConfigFields)
    requires FitsConfig(f)
    ensures And(PackConfig(f) / TWO_56, TWO_8 - 1) == f.valueReceiver
    ensures And(PackConfig(f), TWO_56 - 1) == f.valueToReceive
  {
    var c := PackConfig(f);
    var hi := (f.allowed * TWO_32 + f.expiry) * TWO_8 + f.valueReceiver;
    PowersOfTwo();
    DivModUnique(c, TWO_56, hi, f.valueToReceive);
    DivModUnique(hi, TWO_8, f.allowed * TWO_32 + f.expiry, f.valueReceiver);
    AndOnesIsMod(c / TWO_56, 8);
    AndOnesIsMod(c, 56);
  }

  /** Any configuration word of 256 bits is rebuilt from its four decoded fields. */
  lemma ConfigRepack(config: nat)
    requires config < TWO_256
    ensures PackConfig(DecodeConfig(config)) == config
  {
    var f := DecodeConfig(config);
    PowersOfTwo();
    AndOnesIsMod(config / TWO_96, 160);
    AndOnesIsMod(config / TWO_64, 32);
    AndOnesIsMod(config / TWO_56, 8);
    AndOnesIsMod(config, 56);
    DivDiv(config, TWO_56, TWO_8);
    DivDiv(config, TWO_64, TWO_32);
    DivBound(config, TWO_96, TWO_160);
    DivModUnique(config / TWO_96, TWO_160, 0, config / TWO_96);
    assert config == (config / TWO_56) * TWO_56 + f.valueToReceive;
    assert config / TWO_56 == (config / TWO_64) * TWO_8 + f.valueReceiver;
    assert config / TWO_64 == f.allowed * TWO_32 + f.expiry;
  }

  // ---------------------------------------------------------------------------
  // Swaps

  /** Validates a swap: the expiry decoded from `config` must fit 32 bits and
      must not lie before `now`, the timestamp of the latest block; then
      neither side may be empty. The checks run in that order, and a swap that
      passes them is returned unchanged. */
  function MakeLightSwap(config: nat, biding: seq<LightAsset>, asking: seq<LightAsset>, now: nat): (r: Result<LightSwap>)
    ensures r.Ok? <==> DecodeConfig(config).expiry >= now && |biding| > 0 && |asking| > 0
    ensures r.Ok? ==> r.value == LightSwap(config, biding, asking)
    ensures DecodeConfig(config).expiry < now ==> r == Err(InvalidExpiryInThePast)
    ensures DecodeConfig(config).expiry >= now && (|biding| == 0 || |asking| == 0) ==> r == Err(InvalidAssetsLength)
    ensures r != Err(InvalidExpiryTooBig)
  {
    var f := DecodeConfig(config);
    if f.expiry > TWO_32 - 1 then Err(InvalidExpiryTooBig)
    else if f.expiry < now then Err(InvalidExpiryInThePast)
    else if |biding| == 0 || |asking| == 0 then Err(InvalidAssetsLength)
    else Ok(LightSwap(config, biding, asking))
  }

  /** For a configuration built from fitting fields, the swap is accepted
      exactly when its expiry is at or after `now` and both sides hold assets:
      an expiry equal to `now` passes. */
  lemma MakeLightSwapPackedExpiry(f: ConfigFields, biding: seq<LightAsset>, asking: seq<LightAsset>, now: nat)
    requires FitsConfig(f)
    ensures MakeLightSwap(PackConfig(f), biding, asking, now).Ok? <==> f.expiry >= now && |biding| > 0 && |asking| > 0
    ensures f.expiry < now ==> MakeLightSwap(PackConfig(f), biding, asking, now) == Err(InvalidExpiryInThePast)
  {
    ConfigRoundTrip(f);
  }

  /** Every (address, amount) pair packs. */
  predicate AllEncodable(addrs: seq<AddressString>, amounts: seq<int>)
    requires |addrs| == |amounts|
  {
    forall i :: 0 <= i < |addrs| ==> MakeLightAsset(addrs[i], amounts[i]).Ok?
  }

  /** Pair k is the first one that does not pack. */
  predicate FirstFailure(addrs: seq<AddressString>, amounts: seq<int>, k: nat)
    requires |addrs| == |amounts|
  {
    k < |addrs|
    && (forall i :: 0 <= i < k ==> MakeLightAsset(addrs[i], amounts[i]).Ok?)
    && MakeLightAsset(addrs[k], amounts[k]).Err?
  }

  /** Packs the pairs one after the other, in index order, stopping at the
      first one that fails. */
  function EncodeAll(addrs: seq<AddressString>, amounts: seq<int>): (r: Result<seq<LightAsset>>)
    requires |addrs| == |amounts|
    ensures r.Ok? <==> AllEncodable(addrs, amounts)
    ensures r.Ok? ==> |r.value| == |addrs|
    ensures r.Ok? ==> forall i :: 0 <= i < |addrs| ==> MakeLightAsset(addrs[i], amounts[i]) == Ok(r.value[i])
    decreases |addrs|
  {
    if |addrs| == 0 then Ok([])
    else
      var n := |addrs| - 1;
      match EncodeAll(addrs[..n], amounts[..n])
      case Err(e) => Err(e)
      case Ok(prefix) =>
        match MakeLightAsset(addrs[n], amounts[n])
        case Err(e) => Err(e)
        case Ok(a) => Ok(prefix + [a])
  }

  /** The error of a failed packing is that of the first pair that fails. */
  lemma {:induction false} EncodeAllFirstError(addrs: seq<AddressString>, amounts: seq<int>, k: nat)
    requires |addrs| == |amounts|
    requires FirstFailure(addrs, amounts, k)
    ensures EncodeAll(addrs, amounts) == Err(MakeLightAsset(addrs[k], amounts[k]).error)
    decreases |addrs|
  {
    var n := |addrs| - 1;
    var pa, pm := addrs[..n], amounts[..n];
    if k == n {
      assert AllEncodable(pa, pm) by {
        forall i | 0 <= i < n ensures MakeLightAsset(pa[i], pm[i]).Ok? {
          assert pa[i] == addrs[i] && pm[i] == amounts[i];
        }
      }
    } else {
      assert FirstFailure(pa, pm, k) by {
        forall i | 0 <= i <= k ensures pa[i] == addrs[i] && pm[i] == amounts[i] { }
      }
      EncodeAllFirstError(pa, pm, k);
    }
  }

  /** The loop `addrs.forEach((addr, index) => assets.push(makeLightAsset(addr, amounts[index])))`
      run sequentially: it packs the pairs in index order and stops at the
      first failure. */
  method EncodeAssets(addrs: seq<AddressString>, amounts: seq<int>) returns (r: Result<seq<LightAsset>>)
    requires |addrs| == |amounts|
    ensures r == EncodeAll(addrs, amounts)
  {
    var assets: seq<LightAsset> := [];
    var i := 0;
    while i < |addrs|
      invariant 0 <= i <= |addrs|
      invariant EncodeAll(addrs[..i], amounts[..i]) == Ok(assets)
    {
      var asset := MakeLightAsset(addrs[i], amounts[i]);
      if asset.Err? {
        assert FirstFailure(addrs, amounts, i) by {
          forall j | 0 <= j < i ensures MakeLightAsset(addrs[j], amounts[j]).Ok? {
            assert addrs[..i][j] == addrs[j] && amounts[..i][j] == amounts[j];
          }
        }
        EncodeAllFirstError(addrs, amounts, i);
        return Err(asset.error);
      }
      assert addrs[..i + 1][..i] == addrs[..i] && amounts[..i + 1][..i] == amounts[..i];
      assets := assets + [asset.value];
      i := i + 1;
    }
    assert addrs[..i] == addrs && amounts[..i] == amounts;
    r := Ok(assets);
  }

  /** What composeLightSwap evidently intends: check the two pairs of
      parallel lists for equal lengths, pack the biding pairs, then the asking
      pairs, each in index order and failing at the first pair that does not
      pack, and validate the result with MakeLightSwap. */
  function Compose(config: nat, bidingAddr: seq<AddressString>, bidingAmountOrId: seq<int>,
                   askingAddr: seq<AddressString>, askingAmountOrId: seq<int>, now: nat): (r: Result<LightSwap>)
    // a length mismatch on either side is reported before any pair is packed
    ensures (|bidingAddr| != |bidingAmountOrId| || |askingAddr| != |askingAmountOrId|) ==> r == Err(InvalidAssetsLength)
    // a swap comes out exactly when the lists pair up, every pair packs, the
    // expiry is not in the past and neither side is empty
    ensures r.Ok? <==>
      |bidingAddr| == |bidingAmountOrId| && |askingAddr| == |askingAmountOrId|
      && AllEncodable(bidingAddr, bidingAmountOrId) && AllEncodable(askingAddr, askingAmountOrId)
      && DecodeConfig(config).expiry >= now && |bidingAddr| > 0 && |askingAddr| > 0
    // it keeps the configuration and holds the packing of each pair, in index order
    ensures r.Ok? ==>
      r.value.config == config
      && |r.value.biding| == |bidingAddr| && |r.value.asking| == |askingAddr|
      && (forall i :: 0 <= i < |bidingAddr| ==> MakeLightAsset(bidingAddr[i], bidingAmountOrId[i]) == Ok(r.value.biding[i]))
      && (forall i :: 0 <= i < |askingAddr| ==> MakeLightAsset(askingAddr[i], askingAmountOrId[i]) == Ok(r.value.asking[i]))
  {
    if |bidingAddr| != |bidingAmountOrId| || |askingAddr| != |askingAmountOrId| then Err(InvalidAssetsLength)
    else
      match EncodeAll(bidingAddr, bidingAmountOrId)
      case Err(e) => Err(e)
      case Ok(biding) =>
        match EncodeAll(askingAddr, askingAmountOrId)
        case Err(e) => Err(e)
        case Ok(asking) => MakeLightSwap(config, biding, asking, now)
  }

  /** The first biding pair that does not pack decides the error, whatever
      the asking side and the configuration hold. */
  lemma ComposeBidingError(config: nat, bidingAddr: seq<AddressString>, bidingAmountOrId: seq<int>,
                           askingAddr: seq<AddressString>, askingAmountOrId: seq<int>, now: nat, k: nat)
    requires |bidingAddr| == |bidingAmountOrId| && |askingAddr| == |askingAmountOrId|
    requires FirstFailure(bidingAddr, bidingAmountOrId, k)
    ensures Compose(config, bidingAddr, bidingAmountOrId, askingAddr, askingAmountOrId, now)
            == Err(MakeLightAsset(bidingAddr[k], bidingAmountOrId[k]).error)
  {
    EncodeAllFirstError(bidingAddr, bidingAmountOrId, k);
  }

  /** When every biding pair packs, the first asking pair that does not pack
      decides the error, whatever the configuration holds. */
  lemma ComposeAskingError(config: nat, bidingAddr: seq<AddressString>, bidingAmountOrId: seq<int>,
                           askingAddr: seq<AddressString>, askingAmountOrId: seq<int>, now: nat, k: nat)
    requires |bidingAddr| == |bidingAmountOrId| && |askingAddr| == |askingAmountOrId|
    requires AllEncodable(bidingAddr, bidingAmountOrId)
    requires FirstFailure(askingAddr, askingAmountOrId, k)
    ensures Compose(config, bidingAddr, bidingAmountOrId, askingAddr, askingAmountOrId, now)
            == Err(MakeLightAsset(askingAddr[k], askingAmountOrId[k]).error)
  {
    EncodeAllFirstError(askingAddr, askingAmountOrId, k);
  }

  /** composeLightSwap, with the packing loops run one after the other. */
  method ComposeLightSwap(config: nat, bidingAddr: seq<AddressString>, bidingAmountOrId: seq<int>,
                          askingAddr: seq<AddressString>, askingAmountOrId: seq<int>, now: nat)
    returns (r: Result<LightSwap>)
    ensures r == Compose(config, bidingAddr, bidingAmountOrId, askingAddr, askingAmountOrId, now)
  {
    if |bidingAddr| != |bidingAmountOrId| || |askingAddr| != |askingAmountOrId| {
      return Err(InvalidAssetsLength);
    }
    var biding := EncodeAssets(bidingAddr, bidingAmountOrId);
    if biding.Err? {
      return Err(biding.error);
    }
    var asking := EncodeAssets(askingAddr, askingAmountOrId);
    if asking.Err? {
      return Err(asking.error);
    }
    r := MakeLightSwap(config, biding.value, asking.value, now);
  }

  // ---------------------------------------------------------------------------
  // composeLightSwap as written

  /** What an array filled by `forEach(async (addr, index) => assets.push(await makeLightAsset(...)))`
      holds once its callbacks have run: the assets of the pairs that pack,
      in index order. A pair that fails is skipped: its rejection settles a
      promise that composeLightSwap never awaits, so it does not reach the
      caller. */
  function EncodeEach(addrs: seq<AddressString>, amounts: seq<int>): (r: seq<LightAsset>)
    requires |addrs| == |amounts|
    ensures |r| <= |addrs|
    decreases |addrs|
  {
    if |addrs| == 0 then []
    else
      var n := |addrs| - 1;
      EncodeEach(addrs[..n], amounts[..n]) + Kept(addrs[n], amounts[n])
  }

  /** What one callback pushes: the pair's asset when it packs, nothing otherwise. */
  function Kept(addr: AddressString, amountOrId: int): seq<LightAsset>
  {
    match MakeLightAsset(addr, amountOrId) case Ok(a) => [a] case Err(_) => []
  }

  /** When every pair packs, the skipping loop holds exactly what the
      in-order packing returns; when some pair fails, it holds fewer assets
      than there are pairs. */
  lemma EncodeEachAgrees(addrs: seq<AddressString>, amounts: seq<int>)
    requires |addrs| == |amounts|
    ensures AllEncodable(addrs, amounts) ==> EncodeAll(addrs, amounts) == Ok(EncodeEach(addrs, amounts))
    ensures !AllEncodable(addrs, amounts) ==> |EncodeEach(addrs, amounts)| < |addrs|
  {
    if AllEncodable(addrs, amounts) {
      EncodeEachAllOk(addrs, amounts);
    } else {
      var k :| 0 <= k < |addrs| && MakeLightAsset(addrs[k], amounts[k]).Err?;
      EncodeEachDropsFailure(addrs, amounts, k);
    }
  }

  lemma {:induction false} EncodeEachAllOk(addrs: seq<AddressString>, amounts: seq<int>)
    requires |addrs| == |amounts|
    requires AllEncodable(addrs, amounts)
    ensures EncodeAll(addrs, amounts) == Ok(EncodeEach(addrs, amounts))
    decreases |addrs|
  {
    if |addrs| > 0 {
      var n := |addrs| - 1;
      var pa, pm := addrs[..n], amounts[..n];
      assert AllEncodable(pa, pm) by {
        forall i | 0 <= i < n ensures MakeLightAsset(pa[i], pm[i]).Ok? {
          assert pa[i] == addrs[i] && pm[i] == amounts[i];
        }
      }
      assert MakeLightAsset(addrs[n], amounts[n]).Ok?;
      EncodeEachAllOk(pa, pm);
    }
  }

  lemma {:induction false} EncodeEachDropsFailure(addrs: seq<AddressString>, amounts: seq<int>, k: nat)
    requires |addrs| == |amounts| && k < |addrs|
    requires MakeLightAsset(addrs[k], amounts[k]).Err?
    ensures |EncodeEach(addrs, amounts)| < |addrs|
    decreases |addrs|
  {
    var n := |addrs| - 1;
    var pa, pm := addrs[..n], amounts[..n];
    if k < n {
      assert pa[k] == addrs[k] && pm[k] == amounts[k];
      EncodeEachDropsFailure(pa, pm, k);
    }
  }

  /** No pair of the lists packs. */
  predicate NoneEncodable(addrs: seq<AddressString>, amounts: seq<int>)
    requires |addrs| == |amounts|
  {
    forall i :: 0 <= i < |addrs| ==> MakeLightAsset(addrs[i], amounts[i]).Err?
  }

  /** One more pair at the end adds that pair's share at the end. */
  lemma {:induction false} EncodeEachSnoc(addrs: seq<AddressString>, amounts: seq<int>, x: AddressString, y: int)
    requires |addrs| == |amounts|
    ensures EncodeEach(addrs + [x], amounts + [y]) == EncodeEach(addrs, amounts) + Kept(x, y)
  {
    assert (addrs + [x])[..|addrs|] == addrs && (amounts + [y])[..|amounts|] == amounts;
  }

  /** The skipping loop over two lists run one after the other is the loop
      over the first list, followed by the loop over the second. */
  lemma {:induction false} EncodeEachAppend(a1: seq<AddressString>, m1: seq<int>, a2: seq<AddressString>, m2: seq<int>)
    requires |a1| == |m1| && |a2| == |m2|
    ensures EncodeEach(a1 + a2, m1 + m2) == EncodeEach(a1, m1) + EncodeEach(a2, m2)
    decreases |a2|
  {
    if |a2| == 0 {
      assert a1 + a2 == a1 && m1 + m2 == m1;
    } else {
      var n := |a2| - 1;
      var p, q := a2[..n], m2[..n];
      assert a2 == p + [a2[n]] && m2 == q + [m2[n]];
      assert a1 + a2 == (a1 + p) + [a2[n]] && m1 + m2 == (m1 + q) + [m2[n]];
      EncodeEachSnoc(a1 + p, m1 + q, a2[n], m2[n]);
      EncodeEachAppend(a1, m1, p, q);
      EncodeEachSnoc(p, q, a2[n], m2[n]);
    }
  }

  /** The skipping loop over one pair holds what that pair's callback pushes. */
  lemma {:induction false} EncodeEachSingle(a: AddressString, m: int)
    ensures EncodeEach([a], [m]) == Kept(a, m)
  {
    EncodeEachSnoc([], [], a, m);
    assert [] + [a] == [a] && [] + [m] == [m];
  }

  /** Lists made of a prefix, one pair and a suffix: the skipping loop holds
      what it holds for the prefix, then that pair's share, then what it holds
      for the suffix. */
  lemma {:induction false} EncodeEachAround(a1: seq<AddressString>, m1: seq<int>, x: AddressString, y: int,
                         a2: seq<AddressString>, m2: seq<int>)
    requires |a1| == |m1| && |a2| == |m2|
    ensures EncodeEach(a1 + [x] + a2, m1 + [y] + m2) == EncodeEach(a1, m1) + Kept(x, y) + EncodeEach(a2, m2)
  {
    EncodeEachAppend(a1 + [x], m1 + [y], a2, m2);
    EncodeEachAppend(a1, m1, [x], [y]);
    EncodeEachSingle(x, y);
  }

  /** A pair that does not pack leaves no trace: removing it from anywhere
      in the lists does not change what the skipping loop holds. */
  lemma {:induction false} EncodeEachSkipsFailure(a1: seq<AddressString>, m1: seq<int>, x: AddressString, y: int,
                               a2: seq<AddressString>, m2: seq<int>)
    requires |a1| == |m1| && |a2| == |m2|
    requires MakeLightAsset(x, y).Err?
    ensures EncodeEach(a1 + [x] + a2, m1 + [y] + m2) == EncodeEach(a1 + a2, m1 + m2)
  {
    EncodeEachAround(a1, m1, x, y, a2, m2);
    EncodeEachAppend(a1, m1, a2, m2);
    assert EncodeEach(a1, m1) + [] + EncodeEach(a2, m2) == EncodeEach(a1, m1) + EncodeEach(a2, m2);
  }

  /** A pair that packs contributes exactly its asset, between the assets of
      the pairs before it and those of the pairs after it. */
  lemma {:induction false} EncodeEachKeepsSuccess(a1: seq<AddressString>, m1: seq<int>, x: AddressString, y: int,
                               a2: seq<AddressString>, m2: seq<int>)
    requires |a1| == |m1| && |a2| == |m2|
    requires MakeLightAsset(x, y).Ok?
    ensures EncodeEach(a1 + [x] + a2, m1 + [y] + m2)
            == EncodeEach(a1, m1) + [MakeLightAsset(x, y).value] + EncodeEach(a2, m2)
  {
    EncodeEachAround(a1, m1, x, y, a2, m2);
  }

  /** When no pair packs, the skipping loop leaves the array empty. */
  lemma {:induction false} EncodeEachNone(addrs: seq<AddressString>, amounts: seq<int>)
    requires |addrs| == |amounts|
    requires NoneEncodable(addrs, amounts)
    ensures EncodeEach(addrs, amounts) == []
    decreases |addrs|
  {
    if |addrs| > 0 {
      var n := |addrs| - 1;
      assert NoneEncodable(addrs[..n], amounts[..n]) by {
        forall i | 0 <= i < n ensures MakeLightAsset(addrs[..n][i], amounts[..n][i]).Err? {
          assert addrs[..n][i] == addrs[i] && amounts[..n][i] == amounts[i];
        }
      }
      assert MakeLightAsset(addrs[n], amounts[n]).Err?;
      EncodeEachNone(addrs[..n], amounts[..n]);
    }
  }

  /** composeLightSwap as written: the length check, the two forEach loops,
      then MakeLightSwap over whatever the arrays hold. */
  function ComposeAsWritten(config: nat, bidingAddr: seq<AddressString>, bidingAmountOrId: seq<int>,
                            askingAddr: seq<AddressString>, askingAmountOrId: seq<int>, now: nat): (r: Result<LightSwap>)
    ensures (|bidingAddr| != |bidingAmountOrId| || |askingAddr| != |askingAmountOrId|) ==> r == Err(InvalidAssetsLength)
    // when every pair packs, the code as written and the intended composition agree
    ensures |bidingAddr| == |bidingAmountOrId| && |askingAddr| == |askingAmountOrId|
            && AllEncodable(bidingAddr, bidingAmountOrId) && AllEncodable(askingAddr, askingAmountOrId)
            ==> r == Compose(config, bidingAddr, bidingAmountOrId, askingAddr, askingAmountOrId, now)
  {
    if |bidingAddr| != |bidingAmountOrId| || |askingAddr| != |askingAmountOrId| then Err(InvalidAssetsLength)
    else
      EncodeEachAgrees(bidingAddr, bidingAmountOrId);
      EncodeEachAgrees(askingAddr, askingAmountOrId);
      MakeLightSwap(config, EncodeEach(bidingAddr, bidingAmountOrId), EncodeEach(askingAddr, askingAmountOrId), now)
  }

  /** Under a configuration that has not expired, a side none of whose pairs
      pack is left empty by the code as written, so the swap is rejected for
      its length rather than with the error of a pair. */
  lemma {:induction false} ComposeAsWrittenEmptiedSide(config: nat, bidingAddr: seq<AddressString>, bidingAmountOrId: seq<int>,
                                    askingAddr: seq<AddressString>, askingAmountOrId: seq<int>, now: nat)
    requires |bidingAddr| == |bidingAmountOrId| && |askingAddr| == |askingAmountOrId|
    requires DecodeConfig(config).expiry >= now
    requires NoneEncodable(bidingAddr, bidingAmountOrId) || NoneEncodable(askingAddr, askingAmountOrId)
    ensures ComposeAsWritten(config, bidingAddr, bidingAmountOrId, askingAddr, askingAmountOrId, now)
            == Err(InvalidAssetsLength)
  {
    if NoneEncodable(bidingAddr, bidingAmountOrId) {
      EncodeEachNone(bidingAddr, bidingAmountOrId);
    } else {
      EncodeEachNone(askingAddr, askingAmountOrId);
    }
  }

  /** A malformed address on the biding side, under any configuration that
      has not expired: as written, the swap is composed without that asset;
      intended, composing fails with InvalidAddressFormat. */
  lemma ComposeAsWrittenDropsAsset(config: nat, now: nat)
    requires DecodeConfig(config).expiry >= now
    ensures ComposeAsWritten(config, [NotAnAddress, WellFormed(0)], [1, 1], [WellFormed(0)], [1], now)
            == Ok(LightSwap(config, [LightAsset(1)], [LightAsset(1)]))
    ensures Compose(config, [NotAnAddress, WellFormed(0)], [1, 1], [WellFormed(0)], [1], now)
            == Err(InvalidAddressFormat)
  {
    var addrs, amounts := [NotAnAddress, WellFormed(0)], [1, 1];
    assert MakeLightAsset(WellFormed(0), 1) == Ok(LightAsset(1));
    assert addrs[..1] == [NotAnAddress] && amounts[..1] == [1];
    assert EncodeEach([NotAnAddress], [1]) == [] by {
      assert [NotAnAddress][..0] == [];
    }
    assert EncodeEach([WellFormed(0)], [1]) == [LightAsset(1)] by {
      assert [WellFormed(0)][..0] == [];
    }
    assert EncodeEach(addrs, amounts) == [LightAsset(1)];
    assert FirstFailure(addrs, amounts, 0);
    EncodeAllFirstError(addrs, amounts, 0);
  }
}
