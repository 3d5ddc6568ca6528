/** What a pool's controls are worth once they are stored: which controls apply, and which numbers the
    stored targets and difficulties stand for.
 */
module ControlValues {
  import opened Basics
  import opened NonceText
  import opened PoolControls
  import opened Words

  // ---------- which controls apply ----------

  /** Unmarked, or marked with the algorithm. */
  predicate Applies(control: Control, algo: string) { control.algo == "" || control.algo == algo }

  /** The positions of the controls that apply, in order. */
  ghost predicate Positions(cs: seq<Control>, algo: string, at: seq<nat>) {
    && (forall i :: 0 <= i < |at| ==> at[i] < |cs|)
    && (forall i, j :: 0 <= i < j < |at| ==> at[i] < at[j])
    && (forall k: nat :: k < |cs| ==> (k in at <==> Applies(cs[k], algo)))
  }

  lemma PositionsGrow(cs: seq<Control>, x: Control, algo: string, at: seq<nat>)
    requires Positions(cs, algo, at)
    ensures Positions(cs + [x], algo, if Applies(x, algo) then at + [|cs|] else at)
  {
    var all, more := cs + [x], if Applies(x, algo) then at + [|cs|] else at;
    forall k: nat | k < |all| ensures k in more <==> Applies(all[k], algo) {
      if k < |cs| {
        assert all[k] == cs[k];
      } else {
        assert k !in at;
      }
    }
  }

  ghost predicate Picks(cs: seq<Control>, picked: seq<Control>, at: seq<nat>) {
    |picked| == |at| && forall i :: 0 <= i < |at| ==> at[i] < |cs| && picked[i] == cs[at[i]]
  }

  lemma PicksGrow(cs: seq<Control>, x: Control, picked: seq<Control>, at: seq<nat>)
    requires Picks(cs, picked, at)
    ensures Picks(cs + [x], picked, at) && Picks(cs + [x], picked + [x], at + [|cs|])
  {
  }

  /** The controls that apply are exactly those, in the order in which they came. */
  lemma {:induction false} MatchingInOrder(cs: seq<Control>, algo: string) returns (at: seq<nat>)
    ensures Positions(cs, algo, at) && Picks(cs, Matching(cs, algo), at)
  {
    if |cs| == 0 {
      at := [];
    } else {
      var before, x := cs[..|cs| - 1], cs[|cs| - 1];
      var rest := MatchingInOrder(before, algo);
      assert before + [x] == cs;
      PositionsGrow(before, x, algo, rest);
      PicksGrow(before, x, Matching(before, algo), rest);
      at := if Applies(x, algo) then rest + [|before|] else rest;
    }
  }

  // ---------- protocols ----------

  /** The algorithms that speak a protocol of their own. */
  function AlgosOf(protocol: string): set<string> {
    match protocol
    case "raven" => {"kawpow", "firopow", "evrprogpow", "meowpow"}
    case "zelhash" => {"equihash192_7", "zelhash", "zhash"}
    case "kaspa" => {"karlsenhashv2", "walahash"}
    case "eth" => {"etchash"} case "conflux" => {"octopus"} case "echelon" => {"nexapow"}
    case "cortex" => {"c30"} case "erg" => {"autolykos2"} case "pearlhash" => {"pearlhash"}
    case "ironfish" => {"fishhash"} case "beam" => {"beamhash3"} case "hoosat" => {"hoohash"}
    case "verthash" => {"verthash"} case "xelis" => {"xelishashv3"}
    case _ => {}
  }

  /** Every other algorithm uses the login protocol. */
  lemma ProtocolsShareOut(algo: string, protocol: string)
    requires protocol != "login"
    ensures ProtocolFor(algo) == protocol <==> algo in AlgosOf(protocol)
  {
  }

  // ---------- targets ----------

  /** What a target leaves in a field. */
  function StoredTarget(c: Codec, protocol: string, f: Fields, value: string, k: Field): (r: Option<string>) {
    var g := ApplyTarget(c, protocol, f, value);
    if g.Some? then Lookup(g.value, k) else None
  }

  /** A 256-bit target: up to 64 digits behind an optional 0x. */
  predicate Digits(value: string) {
    HexText(WithoutPrefix(value)) && 1 <= |WithoutPrefix(value)| <= 64
  }

  /** A stored ZelHash or Iron Fish target has 64 digits and is the number that was sent. */
  lemma FullTargetKeepsValue(c: Codec, protocol: string, f: Fields, value: string)
    requires (protocol == "zelhash" || protocol == "ironfish") && Digits(value) && c.target(WithoutPrefix(value))
    ensures var r := StoredTarget(c, protocol, f, value, if protocol == "zelhash" then ZelhashTarget else IronfishTarget);
      r.Some? && HexText(r.value) && |r.value| == 64 && Value(r.value) == Value(WithoutPrefix(value))
  {
    PaddedValue(WithoutPrefix(value), 64);
  }

  /** A stored Raven target has 64 digits that begin with those that were sent: the number that was sent,
      moved up to the top. */
  lemma RavenTargetMovesUp(c: Codec, f: Fields, value: string)
    requires Digits(value)
    ensures var r, hex := StoredTarget(c, "raven", f, value, RavenTarget), WithoutPrefix(value);
      && r.Some? && HexText(r.value) && |r.value| == 64 && r.value[..|hex|] == hex
      && Value(r.value) == Shifted(Value(hex), 4 * (64 - |hex|))
  {
    var hex := WithoutPrefix(value);
    HexHasNoPrefix(hex);
    ValueOfZeroes(64 - |hex|);
    ValueConcat(hex, Zeroes(64 - |hex|));
    assert hex + Zeroes(0) == hex;
  }

  /** An Ethash target, or one for a dialect that is not known yet, is stored as it was sent. */
  lemma OtherTargetsAsSent(c: Codec, protocol: string, f: Fields, value: string)
    requires protocol != "raven" && protocol != "zelhash" && protocol != "ironfish" && c.target(WithoutPrefix(value))
    ensures StoredTarget(c, protocol, f, value, if protocol == "eth" then EthTarget else StratumTarget)
      == Some(WithoutPrefix(value))
  {
  }

  /** A target that cannot be read is refused, under every protocol. */
  lemma UnreadableTargetIsRefused(c: Codec, protocol: string, f: Fields, value: string)
    requires if protocol == "raven" then value != "" && !Legible(value) else !c.target(WithoutPrefix(value))
    ensures ApplyTarget(c, protocol, f, value).None?
  {
  }

  // ---------- difficulties and extranonces ----------

  /** A difficulty is stored as the number it stands for, wherever the protocol keeps it, with the
      targets made from it. */
  lemma DifficultyIsStored(c: Codec, protocol: string, f: Fields, raw: string)
    requires protocol != "xelis" && c.difficulty(raw).Some?
    ensures var g := ApplyDifficulty(c, protocol, f, raw);
      && g.Some? && Lookup(g.value, EthDifficulty) == c.difficulty(raw)
      && (protocol == "verthash" ==> Lookup(g.value, VerthashDifficulty) == c.difficulty(raw))
      && (protocol == "pearlhash" ==> Lookup(g.value, PearlDifficulty) == c.difficulty(raw))
      && (protocol == "kaspa" || protocol == "hoosat" ==>
            Lookup(g.value, KaspaDifficulty) == c.difficulty(raw)
            && Lookup(g.value, KaspaTarget) == Some(c.kaspaTarget(raw)))
      && (protocol == "echelon" ==>
            Lookup(g.value, NexaDifficulty) == c.difficulty(raw)
            && Lookup(g.value, NexaTarget) == Some(c.nexaTarget(c.difficulty(raw).value)))
  {
  }

  /** XELIS keeps a difficulty of up to 256 bits, and nothing else of it. */
  lemma XelisDifficultyIsStored(c: Codec, f: Fields, raw: string)
    requires c.bigDifficulty(raw).Some?
    ensures var g := ApplyDifficulty(c, "xelis", f, raw);
      g.Some? && Lookup(g.value, XelisDifficulty) == c.bigDifficulty(raw)
      && forall k :: k != XelisDifficulty ==> Lookup(g.value, k) == Lookup(f, k)
  {
  }

  /** An extranonce is stored as the prefix in it, also where Iron Fish and Beam look for it. */
  lemma ExtranonceIsStored(c: Codec, protocol: string, f: Fields, control: Control)
    requires protocol != "xelis" && control.kind == Extranonce && PoolControls.Valid(c, protocol, control)
    ensures var g := ApplyExtranonce(c, protocol, f, control);
      && g.Some? && Lookup(g.value, ExtraNonce) == Some(c.prefix(control.value))
      && (protocol == "ironfish" ==> Lookup(g.value, IronfishXn) == Some(c.prefix(control.value)))
      && (protocol == "beam" ==> Lookup(g.value, BeamPrefix) == Some(c.prefix(control.value)))
  {
    ExtranonceAdds(c, protocol, f, control);
  }

  /** An extranonce that is refused for its length or its size has been stored by then. */
  lemma RefusedExtranonceIsStored(c: Codec, protocol: string, f: Fields, control: Control)
    requires protocol != "xelis" && control.kind == Extranonce && ApplyExtranonce(c, protocol, f, control).None?
    requires c.prefix(control.value) != "" || control.value == ""
    ensures Lookup(LeftByError(c, protocol, f, control), ExtraNonce) == Some(c.prefix(control.value))
  {
  }

  /** Nothing else that is refused has been. */
  lemma OtherErrorsLeaveNothing(c: Codec, protocol: string, f: Fields, control: Control)
    requires control.kind != Extranonce || (c.prefix(control.value) == "" && control.value != "")
    ensures LeftByError(c, protocol, f, control) == f
  {
  }
}
