/** A pool connection that switches algorithms: the controls that arrive between jobs are queued, at
    most one of a kind for an algorithm, and applied when a job names its algorithm.
 */
module PoolControls {
  import opened Basics
  import opened Sequences

  datatype Kind = Target | Difficulty | Extranonce

  /** A pushed setting; `algo` is the algorithm it is marked with, or empty. */
  datatype Control = Control(kind: Kind, algo: string, value: string, size: Option<string>, publicKey: Option<string>)

  /** Fields of a pool record: what controls and jobs set, and one that belongs to the login. */
  datatype Field =
    | RavenTarget | EthTarget | ZelhashTarget | IronfishTarget | StratumTarget
    | EthDifficulty | VerthashDifficulty | PearlDifficulty | XelisDifficulty
    | KaspaDifficulty | KaspaTarget | NexaDifficulty | NexaTarget
    | ExtraNonce | ExtraNonceSize | IronfishXn | BeamPrefix | XelisExtraNonce | XelisPublicKey
    | BeamDifficulty | CortexNonce | PearlEncodings | PendingJob
    | WorkerId

  /** The fields that are deleted when the pool changes its algorithm. */
  const CLEARED: set<Field> := {
    BeamDifficulty, BeamPrefix, CortexNonce, EthDifficulty, EthTarget, ExtraNonce, ExtraNonceSize,
    IronfishTarget, IronfishXn, KaspaDifficulty, KaspaTarget, NexaDifficulty, NexaTarget,
    PearlDifficulty, PearlEncodings, RavenTarget, StratumTarget, VerthashDifficulty, XelisDifficulty,
    XelisExtraNonce, XelisPublicKey, ZelhashTarget, PendingJob}

  type Fields = map<Field, string>

  /** Text and number conversions, about which nothing is assumed. */
  datatype Codec = Codec(
    target: string -> bool,                // a readable 256-bit target
    difficulty: string -> Option<string>,
    bigDifficulty: string -> Option<string>,
    kaspaTarget: string -> string,
    nexaTarget: string -> string,
    prefix: string -> string,              // the nonce prefix in a value, or empty
    bytes32: string -> string,             // the 32 bytes in a value, or empty
    size: string -> Option<string>)        // a number up to 8

  function ProtocolFor(algo: string): string {
    match algo
    case "kawpow" => "raven" case "firopow" => "raven" case "evrprogpow" => "raven" case "meowpow" => "raven"
    case "etchash" => "eth" case "octopus" => "conflux" case "nexapow" => "echelon" case "c30" => "cortex"
    case "autolykos2" => "erg" case "pearlhash" => "pearlhash" case "fishhash" => "ironfish"
    case "equihash192_7" => "zelhash" case "zelhash" => "zelhash" case "zhash" => "zelhash"
    case "beamhash3" => "beam" case "karlsenhashv2" => "kaspa" case "walahash" => "kaspa"
    case "hoohash" => "hoosat" case "verthash" => "verthash" case "xelishashv3" => "xelis"
    case _ => "login"
  }

  // ---------- applying a control ----------

  function Get(f: Fields, k: Field): string { if k in f then f[k] else "" }

  /** A Raven target: a leading 0x is dropped, and another one when the length is looked at. */
  predicate Legible(v: string) {
    var hex := WithoutPrefix(WithoutPrefix(v));
    1 <= |hex| <= 64 && HexText(hex)
  }

  function Padded(v: string): string { PadEnd(WithoutPrefix(v), 64) }

  /** The target that an empty Raven target takes over. */
  function Standing(f: Fields): string {
    if Get(f, RavenTarget) != "" then Get(f, RavenTarget) else Get(f, StratumTarget)
  }

  function ApplyTarget(c: Codec, protocol: string, f: Fields, value: string): Option<Fields> {
    if protocol == "raven" then
      var raw := if value != "" then value else Standing(f);
      if Legible(raw) then Some(f[RavenTarget := Padded(raw)]) else None
    else
      var hex := WithoutPrefix(value);
      if !c.target(hex) then None
      else if protocol == "eth" then Some(f[EthTarget := hex])
      else if protocol == "zelhash" then Some(f[ZelhashTarget := PadStart(hex, 64)])
      else if protocol == "ironfish" then Some(f[IronfishTarget := PadStart(hex, 64)])
      else Some(f[StratumTarget := hex])
  }

  function ApplyDifficulty(c: Codec, protocol: string, f: Fields, raw: string): Option<Fields> {
    if protocol == "xelis" then
      if c.bigDifficulty(raw).Some? then Some(f[XelisDifficulty := c.bigDifficulty(raw).value]) else None
    else if c.difficulty(raw).None? then None
    else
      var d := c.difficulty(raw).value;
      var g := f[EthDifficulty := d];
      Some(if protocol == "verthash" then g[VerthashDifficulty := d]
           else if protocol == "pearlhash" then g[PearlDifficulty := d]
           else if protocol == "kaspa" || protocol == "hoosat" then
             g[KaspaDifficulty := d][KaspaTarget := c.kaspaTarget(raw)]
           else if protocol == "echelon" then g[NexaDifficulty := d][NexaTarget := c.nexaTarget(d)]
           else g)
  }

  function ApplyExtranonce(c: Codec, protocol: string, f: Fields, control: Control): Option<Fields> {
    if protocol == "xelis" then
      var nonce := c.bytes32(control.value);
      if control.publicKey.Some? then
        var key := c.bytes32(control.publicKey.value);
        if nonce != "" && key != "" then Some(f[XelisExtraNonce := nonce][XelisPublicKey := key])
        else Some(f[XelisExtraNonce := ""][XelisPublicKey := ""])
      else if nonce != "" then Some(f[XelisExtraNonce := nonce]) else Some(f)
    else
      var prefix := c.prefix(control.value);
      if prefix == "" && control.value != "" then None
      else if protocol == "beam" && |prefix| > 12 then None
      else if control.size.Some? && c.size(control.size.value).None? then None
      else
        var g := f[ExtraNonce := prefix];
        var h := if protocol == "ironfish" then g[IronfishXn := prefix]
                 else if protocol == "beam" then g[BeamPrefix := prefix] else g;
        Some(if control.size.Some? then h[ExtraNonceSize := c.size(control.size.value).value] else h)
  }

  /** None is the error that ends the connection. */
  function Apply(c: Codec, protocol: string, f: Fields, control: Control): Option<Fields> {
    match control.kind
    case Target => ApplyTarget(c, protocol, f, control.value)
    case Difficulty => ApplyDifficulty(c, protocol, f, control.value)
    case Extranonce => ApplyExtranonce(c, protocol, f, control)
  }

  /** The fields after a control that ends the connection: an extranonce has been stored before its
      length or its size is looked at. */
  function LeftByError(c: Codec, protocol: string, f: Fields, control: Control): Fields {
    var prefix := c.prefix(control.value);
    if control.kind != Extranonce || protocol == "xelis" || (prefix == "" && control.value != "") then f
    else
      var g := f[ExtraNonce := prefix];
      if protocol == "ironfish" then g[IronfishXn := prefix]
      else if protocol == "beam" && |prefix| <= 12 then g[BeamPrefix := prefix] else g
  }

  /** The fields after a control, accepted or not. */
  function Outcome(c: Codec, protocol: string, f: Fields, control: Control): Fields {
    var g := Apply(c, protocol, f, control);
    if g.Some? then g.value else LeftByError(c, protocol, f, control)
  }

  /** Whatever a control sets, accepted or not, is among the fields that are cleared. */
  lemma ClearedCoversControls(c: Codec, protocol: string, f: Fields, control: Control, k: Field)
    requires k !in CLEARED
    ensures Lookup(Outcome(c, protocol, f, control), k) == Lookup(f, k)
  {
    match control.kind
    case Target =>
    case Difficulty =>
    case Extranonce =>
  }

  function Lookup(f: Fields, k: Field): Option<string> {
    if k in f then Some(f[k]) else None
  }

  function Replay(c: Codec, protocol: string, f: Fields, cs: seq<Control>): Option<Fields> {
    if |cs| == 0 then Some(f)
    else
      var g := Replay(c, protocol, f, cs[..|cs| - 1]);
      if g.None? then None else Apply(c, protocol, g.value, cs[|cs| - 1])
  }

  // ---------- the queue ----------

  predicate Matches(control: Control, algo: string) { control.algo == "" || control.algo == algo }

  function Matching(cs: seq<Control>, algo: string): (r: seq<Control>)
    ensures forall i :: 0 <= i < |r| ==> r[i] in cs
  {
    if |cs| == 0 then [] else
      var rest := Matching(cs[..|cs| - 1], algo);
      if Matches(cs[|cs| - 1], algo) then rest + [cs[|cs| - 1]] else rest
  }

  predicate SameKey(x: Control, y: Control) { x.kind == y.kind && x.algo == y.algo }

  /** The queue without the entry that a new control replaces. */
  function Others(q: seq<Control>, control: Control): (r: seq<Control>)
    ensures forall i :: 0 <= i < |r| ==> r[i] in q && !SameKey(r[i], control)
  {
    if |q| == 0 then [] else
      var rest := Others(q[..|q| - 1], control);
      if SameKey(q[|q| - 1], control) then rest else rest + [q[|q| - 1]]
  }

  function Enqueue(q: seq<Control>, control: Control, requested: set<string>): seq<Control> {
    if control.algo != "" && control.algo !in requested then q else Others(q, control) + [control]
  }

  function Coalesced(history: seq<Control>, requested: set<string>): seq<Control> {
    if |history| == 0 then []
    else Enqueue(Coalesced(history[..|history| - 1], requested), history[|history| - 1], requested)
  }

  ghost predicate UniqueKeys(q: seq<Control>) {
    forall i, j :: 0 <= i < j < |q| ==> !SameKey(q[i], q[j])
  }

  ghost predicate Advertised(q: seq<Control>, requested: set<string>) {
    forall i :: 0 <= i < |q| ==> q[i].algo == "" || q[i].algo in requested
  }

  lemma {:induction false} OthersKeepOrder(q: seq<Control>, control: Control)
    requires UniqueKeys(q)
    ensures UniqueKeys(Others(q, control))
  {
    if |q| > 0 {
      OthersKeepOrder(q[..|q| - 1], control);
    }
  }

  /** Over any history the queue has one control of a kind for an algorithm, all advertised. */
  lemma {:induction false} QueueIsSmall(history: seq<Control>, requested: set<string>)
    ensures UniqueKeys(Coalesced(history, requested)) && Advertised(Coalesced(history, requested), requested)
    ensures |Coalesced(history, requested)| <= 3 * (|requested| + 1)
  {
    if |history| > 0 {
      var n := |history| - 1;
      QueueIsSmall(history[..n], requested);
      OthersKeepOrder(Coalesced(history[..n], requested), history[n]);
    }
    KeysBound(Coalesced(history, requested), requested);
  }

  function Keys(q: seq<Control>): (r: seq<(Kind, string)>)
    ensures |r| == |q| && forall i :: 0 <= i < |q| ==> r[i] == (q[i].kind, q[i].algo)
  {
    seq(|q|, i requires 0 <= i < |q| => (q[i].kind, q[i].algo))
  }

  function KeysOf(kind: Kind, algos: set<string>): set<(Kind, string)> {
    set a | a in algos :: (kind, a)
  }

  lemma {:induction false} KeysOfSize(kind: Kind, algos: set<string>)
    ensures |KeysOf(kind, algos)| == |algos|
  {
    if algos != {} {
      var a :| a in algos;
      KeysOfSize(kind, algos - {a});
      assert KeysOf(kind, algos) == KeysOf(kind, algos - {a}) + {(kind, a)};
    }
  }

  lemma KeysBound(q: seq<Control>, requested: set<string>)
    requires UniqueKeys(q) && Advertised(q, requested)
    ensures |q| <= 3 * (|requested| + 1)
  {
    var algos := requested + {""};
    var all := KeysOf(Target, algos) + KeysOf(Difficulty, algos) + KeysOf(Extranonce, algos);
    KeysOfSize(Target, algos);
    KeysOfSize(Difficulty, algos);
    KeysOfSize(Extranonce, algos);
    forall k | k in ToSet(Keys(q)) ensures k in all {
      var i :| 0 <= i < |q| && Keys(q)[i] == k;
      assert q[i].algo in algos;
      match q[i].kind {
        case Target => assert k in KeysOf(Target, algos);
        case Difficulty => assert k in KeysOf(Difficulty, algos);
        case Extranonce => assert k in KeysOf(Extranonce, algos);
      }
    }
    forall i, j | 0 <= i < j < |q| ensures Keys(q)[i] != Keys(q)[j] {
      assert !SameKey(q[i], q[j]);
    }
    DistinctSize(Keys(q));
    SubsetSize(ToSet(Keys(q)), all);
  }

  // ---------- the queue stands for its history ----------

  function LastOf(cs: seq<Control>, kind: Kind): Option<Control> {
    if |cs| == 0 then None
    else if cs[|cs| - 1].kind == kind then Some(cs[|cs| - 1])
    else LastOf(cs[..|cs| - 1], kind)
  }

  lemma LastAppend(cs: seq<Control>, x: Control, kind: Kind)
    ensures LastOf(cs + [x], kind) == if x.kind == kind then Some(x) else LastOf(cs, kind)
  {
    assert (cs + [x])[..|cs|] == cs;
  }

  lemma MatchingAppend(cs: seq<Control>, x: Control, algo: string)
    ensures Matching(cs + [x], algo) == if Matches(x, algo) then Matching(cs, algo) + [x] else Matching(cs, algo)
  {
    assert (cs + [x])[..|cs|] == cs;
  }

  /** The last control of a kind that matches an algorithm. */
  function Latest(cs: seq<Control>, algo: string, kind: Kind): Option<Control> {
    if |cs| == 0 then None
    else if Matches(cs[|cs| - 1], algo) && cs[|cs| - 1].kind == kind then Some(cs[|cs| - 1])
    else Latest(cs[..|cs| - 1], algo, kind)
  }

  lemma {:induction false} LatestIsLast(cs: seq<Control>, algo: string, kind: Kind)
    ensures Latest(cs, algo, kind) == LastOf(Matching(cs, algo), kind)
  {
    if |cs| > 0 {
      var n := |cs| - 1;
      LatestIsLast(cs[..n], algo, kind);
      LastAppend(Matching(cs[..n], algo), cs[n], kind);
    }
  }

  lemma LatestAppend(cs: seq<Control>, x: Control, algo: string, kind: Kind)
    ensures Latest(cs + [x], algo, kind) == if Matches(x, algo) && x.kind == kind then Some(x) else Latest(cs, algo, kind)
  {
    assert (cs + [x])[..|cs|] == cs;
  }

  lemma {:induction false} LatestWithoutOthers(q: seq<Control>, control: Control, algo: string, kind: Kind)
    requires control.kind != kind || !Matches(control, algo)
    ensures Latest(Others(q, control), algo, kind) == Latest(q, algo, kind)
  {
    if |q| > 0 {
      var n := |q| - 1;
      LatestWithoutOthers(q[..n], control, algo, kind);
      LatestAppend(Others(q[..n], control), q[n], algo, kind);
    }
  }

  /** The latest matching control of each kind survives in the queue. */
  lemma {:induction false} QueueKeepsLatest(history: seq<Control>, requested: set<string>, algo: string, kind: Kind)
    requires algo in requested
    ensures Latest(Coalesced(history, requested), algo, kind) == Latest(history, algo, kind)
  {
    if |history| > 0 {
      var n := |history| - 1;
      var control, q := history[n], Coalesced(history[..n], requested);
      QueueKeepsLatest(history[..n], requested, algo, kind);
      LatestAppend(Others(q, control), control, algo, kind);
      if control.kind != kind || !Matches(control, algo) {
        LatestWithoutOthers(q, control, algo, kind);
      }
    }
  }

  lemma {:induction false} QueueIsFromHistory(history: seq<Control>, requested: set<string>)
    ensures forall i :: 0 <= i < |Coalesced(history, requested)| ==> Coalesced(history, requested)[i] in history
  {
    if |history| > 0 {
      QueueIsFromHistory(history[..|history| - 1], requested);
    }
  }

  // ---------- what replaying comes to ----------

  /** An empty Raven target, which depends on the fields. */
  predicate Empty(protocol: string, control: Control) {
    control.kind == Target && protocol == "raven" && control.value == ""
  }

  /** A control that is accepted whatever the fields hold. */
  predicate Valid(c: Codec, protocol: string, control: Control) {
    match control.kind
    case Target =>
      if protocol == "raven" then control.value != "" && Legible(control.value)
      else c.target(WithoutPrefix(control.value))
    case Difficulty =>
      if protocol == "xelis" then c.bigDifficulty(control.value).Some? else c.difficulty(control.value).Some?
    case Extranonce =>
      protocol == "xelis" ||
      (var prefix := c.prefix(control.value);
       && (prefix != "" || control.value == "") && (protocol == "beam" ==> |prefix| <= 12)
       && (control.size.Some? ==> c.size(control.size.value).Some?))
  }

  ghost predicate AllValid(c: Codec, protocol: string, cs: seq<Control>) {
    forall i :: 0 <= i < |cs| ==> Valid(c, protocol, cs[i])
  }

  /** What a valid control sets. */
  function Effect(c: Codec, protocol: string, control: Control): Fields {
    if Valid(c, protocol, control) && Apply(c, protocol, map[], control).Some?
    then Apply(c, protocol, map[], control).value else map[]
  }

  /** The fields that a control of a kind sets under a protocol, besides those that it may leave. */
  function Sets(protocol: string, kind: Kind): set<Field> {
    match kind
    case Target =>
      if protocol == "raven" then {RavenTarget} else if protocol == "eth" then {EthTarget}
      else if protocol == "zelhash" then {ZelhashTarget} else if protocol == "ironfish" then {IronfishTarget}
      else {StratumTarget}
    case Difficulty =>
      if protocol == "xelis" then {XelisDifficulty}
      else if protocol == "verthash" then {EthDifficulty, VerthashDifficulty}
      else if protocol == "pearlhash" then {EthDifficulty, PearlDifficulty}
      else if protocol == "kaspa" || protocol == "hoosat" then {EthDifficulty, KaspaDifficulty, KaspaTarget}
      else if protocol == "echelon" then {EthDifficulty, NexaDifficulty, NexaTarget}
      else {EthDifficulty}
    case Extranonce =>
      if protocol == "xelis" then {} else if protocol == "ironfish" then {ExtraNonce, IronfishXn}
      else if protocol == "beam" then {ExtraNonce, BeamPrefix} else {ExtraNonce}
  }

  /** Fields that a control of their kind may leave as they are. */
  predicate Partial(k: Field) {
    k == ExtraNonceSize || k == XelisExtraNonce || k == XelisPublicKey || k == RavenTarget
  }

  /** What a valid control sets, whatever the fields hold. */
  predicate SetsJust(c: Codec, protocol: string, f: Fields, control: Control) {
    Apply(c, protocol, f, control) == Some(f + Effect(c, protocol, control))
  }

  lemma TargetSets(c: Codec, protocol: string, f: Fields, control: Control)
    requires Valid(c, protocol, control) && control.kind == Target
    ensures SetsJust(c, protocol, f, control)
    ensures Effect(c, protocol, control).Keys == Sets(protocol, Target)
    ensures protocol == "raven" ==> Effect(c, protocol, control)[RavenTarget] == Padded(control.value)
  {
    var g := ApplyTarget(c, protocol, f, control.value);
    assert g.Some? && g.value == f + Effect(c, protocol, control);
  }

  lemma DifficultySets(c: Codec, protocol: string, f: Fields, control: Control)
    requires Valid(c, protocol, control) && control.kind == Difficulty
    ensures SetsJust(c, protocol, f, control)
    ensures Effect(c, protocol, control).Keys == Sets(protocol, Difficulty)
  {
    var g := ApplyDifficulty(c, protocol, f, control.value);
    assert g.Some? && g.value == f + Effect(c, protocol, control);
  }

  lemma XelisSets(c: Codec, f: Fields, control: Control)
    requires control.kind == Extranonce
    ensures SetsJust(c, "xelis", f, control)
    ensures Effect(c, "xelis", control).Keys <= {XelisExtraNonce, XelisPublicKey}
  {
    var g := ApplyExtranonce(c, "xelis", f, control);
    assert g.Some? && g.value == f + Effect(c, "xelis", control);
  }

  function NonceFields(protocol: string, prefix: string): Fields {
    if protocol == "ironfish" then map[ExtraNonce := prefix, IronfishXn := prefix]
    else if protocol == "beam" then map[ExtraNonce := prefix, BeamPrefix := prefix] else map[ExtraNonce := prefix]
  }

  function SizeField(c: Codec, size: Option<string>): Fields {
    if size.Some? && c.size(size.value).Some? then map[ExtraNonceSize := c.size(size.value).value] else map[]
  }

  lemma ExtranonceAdds(c: Codec, protocol: string, f: Fields, control: Control)
    requires Valid(c, protocol, control) && control.kind == Extranonce && protocol != "xelis"
    ensures ApplyExtranonce(c, protocol, f, control) ==
      Some(f + (NonceFields(protocol, c.prefix(control.value)) + SizeField(c, control.size)))
  {
    var g := ApplyExtranonce(c, protocol, f, control);
    assert g.Some?;
    assert g.value == f + (NonceFields(protocol, c.prefix(control.value)) + SizeField(c, control.size));
  }

  lemma ExtranonceSets(c: Codec, protocol: string, f: Fields, control: Control)
    requires Valid(c, protocol, control) && control.kind == Extranonce && protocol != "xelis"
    ensures SetsJust(c, protocol, f, control)
    ensures Effect(c, protocol, control).Keys ==
      Sets(protocol, Extranonce) + (if control.size.Some? then {ExtraNonceSize} else {})
    ensures control.size.Some? ==>
      Lookup(Effect(c, protocol, control), ExtraNonceSize) == c.size(control.size.value)
  {
    var e := NonceFields(protocol, c.prefix(control.value)) + SizeField(c, control.size);
    ExtranonceAdds(c, protocol, f, control);
    ExtranonceAdds(c, protocol, map[], control);
    assert map[] + e == e;
    assert Effect(c, protocol, control) == e;
  }

  /** A valid control sets fields of its kind, to values that do not depend on the fields. */
  lemma ValidOverwrites(c: Codec, protocol: string, f: Fields, control: Control)
    requires Valid(c, protocol, control)
    ensures Apply(c, protocol, f, control) == Some(f + Effect(c, protocol, control))
    ensures forall k :: !Partial(k) ==> (k in Effect(c, protocol, control) <==> k in Sets(protocol, control.kind))
    ensures RavenTarget in Effect(c, protocol, control) <==> protocol == "raven" && control.kind == Target
    ensures StratumTarget in Effect(c, protocol, control) ==> protocol != "raven"
  {
    match control.kind
    case Target => TargetSets(c, protocol, f, control);
    case Difficulty => DifficultySets(c, protocol, f, control);
    case Extranonce =>
      if protocol == "xelis" {
        XelisSets(c, f, control);
      } else {
        ExtranonceSets(c, protocol, f, control);
      }
  }

  lemma SameFields(f: Fields, g: Fields)
    requires forall k :: Lookup(f, k) == Lookup(g, k)
    ensures f == g
  {
    forall k ensures k in f <==> k in g {
      assert Lookup(f, k) == Lookup(g, k);
    }
    forall k | k in f ensures f[k] == g[k] {
      assert Lookup(f, k) == Lookup(g, k);
    }
  }

  /** The value that the last control to set a field gives it. */
  function LastSet(c: Codec, protocol: string, cs: seq<Control>, k: Field): Option<string> {
    if |cs| == 0 then None
    else
      var e := Effect(c, protocol, cs[|cs| - 1]);
      if k in e then Some(e[k]) else LastSet(c, protocol, cs[..|cs| - 1], k)
  }

  predicate HasEmpty(protocol: string, cs: seq<Control>) {
    exists i :: 0 <= i < |cs| && Empty(protocol, cs[i])
  }

  /** Control i is valid, or an empty Raven target with a target before it or a standing one. */
  predicate ReadableAt(c: Codec, protocol: string, f: Fields, cs: seq<Control>, i: nat)
    requires i < |cs|
  {
    Valid(c, protocol, cs[i]) ||
    (Empty(protocol, cs[i]) && (LastSet(c, protocol, cs[..i], RavenTarget).Some? || Legible(Standing(f))))
  }

  ghost predicate Readable(c: Codec, protocol: string, f: Fields, cs: seq<Control>) {
    forall i: nat :: i < |cs| ==> ReadableAt(c, protocol, f, cs, i)
  }

  /** How many empty Raven targets there are since the last one that is not empty. */
  function EmptiesSince(protocol: string, cs: seq<Control>): nat {
    if |cs| == 0 then 0
    else if Empty(protocol, cs[|cs| - 1]) then 1 + EmptiesSince(protocol, cs[..|cs| - 1])
    else if cs[|cs| - 1].kind == Target then 0
    else EmptiesSince(protocol, cs[..|cs| - 1])
  }

  function PaddedTimes(v: string, n: nat): string {
    if n == 0 then v else Padded(PaddedTimes(v, n - 1))
  }

  /** A field after the controls: what the last one to set it says, or else what it was; a Raven
      target is padded again by each empty target after it, and so is the standing one. */
  function After(c: Codec, protocol: string, f: Fields, cs: seq<Control>, k: Field): Option<string> {
    var n := if k == RavenTarget then EmptiesSince(protocol, cs) else 0;
    Settled(LastSet(c, protocol, cs, k), n, Standing(f), Lookup(f, k))
  }

  function Settled(last: Option<string>, n: nat, standing: string, was: Option<string>): Option<string> {
    if last.Some? then Some(PaddedTimes(last.value, n))
    else if n > 0 then Some(PaddedTimes(standing, n))
    else was
  }

  lemma SettledAgain(last: Option<string>, n: nat, standing: string, was: Option<string>)
    ensures Settled(last, n + 1, standing, was) ==
      Some(Padded(PaddedTimes(if last.Some? then last.value else standing, n)))
  {
  }

  lemma HexHasNoPrefix(s: string)
    requires HexText(s)
    ensures WithoutPrefix(s) == s
  {
  }

  /** A legible target, once padded, is legible. */
  lemma PaddedIsLegible(v: string)
    requires Legible(v)
    ensures Padded(v) != "" && Legible(Padded(v)) && HexText(WithoutPrefix(Padded(v)))
  {
    var t, p := WithoutPrefix(v), Padded(v);
    var u := WithoutPrefix(t);
    if t == u {
      HexHasNoPrefix(p);
    } else {
      assert t == t[..2] + u;
      assert WithoutPrefix(p) == p[2..] == u + Zeroes(if |t| < 64 then 64 - |t| else 0);
      HexHasNoPrefix(p[2..]);
    }
  }

  /** Padding again changes exactly the values with a second 0x, and only once. */
  lemma PaddingAgain(v: string)
    requires Legible(v)
    ensures Padded(Padded(v)) == Padded(v) <==> WithoutPrefix(WithoutPrefix(v)) == WithoutPrefix(v)
    ensures Padded(Padded(Padded(v))) == Padded(Padded(v))
  {
    var t, p := WithoutPrefix(v), Padded(v);
    PaddedIsLegible(v);
    if WithoutPrefix(t) == t {
      HexHasNoPrefix(p);
    } else {
      assert p[1] == t[1];
      assert HexText(Padded(p)) && !HexText(p) by {
        assert !HexDigit(p[1]);
      }
      HexHasNoPrefix(Padded(p));
    }
  }

  /** The pool value 0x0xff is accepted, and an empty target after it changes what is stored. */
  lemma EmptyTargetPadsAgain()
    ensures Legible("0x0xff") && Padded("0x0xff") == "0xff" + Zeroes(60)
    ensures Padded(Padded("0x0xff")) == "ff" + Zeroes(62)
  {
    assert WithoutPrefix("0x0xff") == "0xff" && WithoutPrefix("0xff") == "ff";
    var p := "0xff" + Zeroes(60);
    assert WithoutPrefix(p) == p[2..] == "ff" + Zeroes(60);
    assert "ff" + Zeroes(60) + Zeroes(2) == "ff" + Zeroes(62);
  }

  lemma {:induction false} PaddedTimesIsLegible(v: string, n: nat)
    requires Legible(v) && (n > 0 || v != "")
    ensures PaddedTimes(v, n) != "" && Legible(PaddedTimes(v, n))
  {
    if n > 1 || (n == 1 && v != "") {
      PaddedTimesIsLegible(v, n - 1);
    }
    if n > 0 {
      PaddedIsLegible(PaddedTimes(v, n - 1));
    }
  }

  lemma {:induction false} LastRavenIsLegible(c: Codec, cs: seq<Control>)
    ensures var last := LastSet(c, "raven", cs, RavenTarget); last.Some? ==> last.value != "" && Legible(last.value)
  {
    if |cs| > 0 {
      var control := cs[|cs| - 1];
      LastRavenIsLegible(c, cs[..|cs| - 1]);
      if Valid(c, "raven", control) {
        ValidOverwrites(c, "raven", map[], control);
        if control.kind == Target {
          TargetSets(c, "raven", map[], control);
          PaddedIsLegible(control.value);
        }
      }
    }
  }

  lemma {:induction false} StratumUntouched(c: Codec, cs: seq<Control>)
    ensures LastSet(c, "raven", cs, StratumTarget).None?
  {
    if |cs| > 0 {
      StratumUntouched(c, cs[..|cs| - 1]);
      if Valid(c, "raven", cs[|cs| - 1]) {
        ValidOverwrites(c, "raven", map[], cs[|cs| - 1]);
      }
    }
  }

  /** Replaying succeeds exactly for readable controls and leaves every field as described. */
  lemma {:induction false} ReplayMeans(c: Codec, protocol: string, f: Fields, cs: seq<Control>)
    ensures var r := Replay(c, protocol, f, cs);
      && (r.Some? <==> Readable(c, protocol, f, cs))
      && (r.Some? ==> forall k :: Lookup(r.value, k) == After(c, protocol, f, cs, k))
  {
    if |cs| > 0 {
      var before, x := cs[..|cs| - 1], cs[|cs| - 1];
      assert before + [x] == cs;
      ReplayMeans(c, protocol, f, before);
      ReadableOneMore(c, protocol, f, before, x);
      if Readable(c, protocol, f, before) {
        OneMoreControl(c, protocol, f, before, x, Replay(c, protocol, f, before).value);
      }
    }
  }

  lemma ReadableOneMore(c: Codec, protocol: string, f: Fields, before: seq<Control>, x: Control)
    ensures Readable(c, protocol, f, before + [x]) <==>
      Readable(c, protocol, f, before) && ReadableAt(c, protocol, f, before + [x], |before|)
  {
    var cs := before + [x];
    forall i: nat | i < |before|
      ensures ReadableAt(c, protocol, f, cs, i) <==> ReadableAt(c, protocol, f, before, i)
    {
      assert cs[..i] == before[..i];
    }
  }

  lemma EmptiesOneMore(protocol: string, before: seq<Control>, x: Control)
    ensures EmptiesSince(protocol, before + [x]) ==
      if Empty(protocol, x) then 1 + EmptiesSince(protocol, before)
      else if x.kind == Target then 0 else EmptiesSince(protocol, before)
  {
    assert (before + [x])[..|before|] == before;
  }

  lemma {:induction false} OnlyRavenEmpties(protocol: string, cs: seq<Control>)
    requires protocol != "raven" || forall i :: 0 <= i < |cs| ==> !Empty(protocol, cs[i])
    ensures EmptiesSince(protocol, cs) == 0
  {
    if |cs| > 0 {
      OnlyRavenEmpties(protocol, cs[..|cs| - 1]);
    }
  }

  lemma ValidControl(c: Codec, protocol: string, f: Fields, before: seq<Control>, x: Control, g: Fields)
    requires Valid(c, protocol, x) && forall k :: Lookup(g, k) == After(c, protocol, f, before, k)
    ensures var r := Apply(c, protocol, g, x);
      r.Some? && forall k :: Lookup(r.value, k) == After(c, protocol, f, before + [x], k)
  {
    var e := Effect(c, protocol, x);
    ValidOverwrites(c, protocol, g, x);
    EmptiesOneMore(protocol, before, x);
    if protocol != "raven" {
      OnlyRavenEmpties(protocol, before);
    }
    forall k ensures Lookup(g + e, k) == After(c, protocol, f, before + [x], k) {
      assert Lookup(g, k) == After(c, protocol, f, before, k);
      LastSetOneMore(c, protocol, before, x, k);
    }
  }

  lemma OneMoreControl(c: Codec, protocol: string, f: Fields, before: seq<Control>, x: Control, g: Fields)
    requires forall k :: Lookup(g, k) == After(c, protocol, f, before, k)
    requires Readable(c, protocol, f, before)
    ensures var r := Apply(c, protocol, g, x);
      && (r.Some? <==> ReadableAt(c, protocol, f, before + [x], |before|))
      && (r.Some? ==> forall k :: Lookup(r.value, k) == After(c, protocol, f, before + [x], k))
  {
    var cs := before + [x];
    assert cs[..|before|] == before && cs[|cs| - 1] == x;
    if Valid(c, protocol, x) {
      ValidControl(c, protocol, f, before, x, g);
    } else if Empty(protocol, x) {
      EmptyTarget(c, f, before, x, g);
    }
  }

  lemma LastSetOneMore(c: Codec, protocol: string, before: seq<Control>, x: Control, k: Field)
    ensures var e := Effect(c, protocol, x);
      LastSet(c, protocol, before + [x], k) == if k in e then Some(e[k]) else LastSet(c, protocol, before, k)
  {
    assert (before + [x])[..|before|] == before;
  }

  /** The standing target after some controls. */
  lemma StandingAfter(c: Codec, f: Fields, before: seq<Control>, g: Fields)
    requires Readable(c, "raven", f, before)
    requires Lookup(g, RavenTarget) == After(c, "raven", f, before, RavenTarget)
    requires Lookup(g, StratumTarget) == After(c, "raven", f, before, StratumTarget)
    ensures var last, n := LastSet(c, "raven", before, RavenTarget), EmptiesSince("raven", before);
      && Standing(g) == PaddedTimes(if last.Some? then last.value else Standing(f), n)
      && (Legible(Standing(g)) <==> last.Some? || Legible(Standing(f)))
  {
    var last, n := LastSet(c, "raven", before, RavenTarget), EmptiesSince("raven", before);
    StratumUntouched(c, before);
    LastRavenIsLegible(c, before);
    if last.Some? {
      PaddedTimesIsLegible(last.value, n);
    } else if n > 0 {
      SomeEmpty(before);
      StandingIsReadable(c, f, before);
      PaddedTimesIsLegible(Standing(f), n);
    } else {
      assert Standing(g) == Standing(f);
    }
  }

  lemma {:induction false} SomeEmpty(cs: seq<Control>)
    requires EmptiesSince("raven", cs) > 0
    ensures HasEmpty("raven", cs)
  {
    if !Empty("raven", cs[|cs| - 1]) {
      SomeEmpty(cs[..|cs| - 1]);
      var i :| 0 <= i < |cs| - 1 && Empty("raven", cs[..|cs| - 1][i]);
      assert Empty("raven", cs[i]);
    }
  }

  lemma EmptyTarget(c: Codec, f: Fields, before: seq<Control>, x: Control, g: Fields)
    requires Empty("raven", x) && Readable(c, "raven", f, before)
    requires forall k :: Lookup(g, k) == After(c, "raven", f, before, k)
    ensures var r := Apply(c, "raven", g, x);
      && (r.Some? <==> LastSet(c, "raven", before, RavenTarget).Some? || Legible(Standing(f)))
      && (r.Some? ==> forall k :: Lookup(r.value, k) == After(c, "raven", f, before + [x], k))
  {
    StandingAfter(c, f, before, g);
    var r := ApplyTarget(c, "raven", g, x.value);
    if r.Some? {
      forall k ensures Lookup(r.value, k) == After(c, "raven", f, before + [x], k) {
        assert Lookup(g, k) == After(c, "raven", f, before, k);
        EmptyChanges(c, f, before, x, k);
      }
    }
  }

  /** An empty target pads the standing one again and leaves the other fields. */
  lemma EmptyChanges(c: Codec, f: Fields, before: seq<Control>, x: Control, k: Field)
    requires Empty("raven", x)
    ensures var last, n := LastSet(c, "raven", before, RavenTarget), EmptiesSince("raven", before);
      After(c, "raven", f, before + [x], k) ==
        if k == RavenTarget then Some(Padded(PaddedTimes(if last.Some? then last.value else Standing(f), n)))
        else After(c, "raven", f, before, k)
  {
    EmptiesOneMore("raven", before, x);
    EmptySetsNothing(c, before, x, k);
    SettledAgain(LastSet(c, "raven", before, k), EmptiesSince("raven", before), Standing(f), Lookup(f, k));
  }

  lemma EmptySetsNothing(c: Codec, before: seq<Control>, x: Control, k: Field)
    requires Empty("raven", x)
    ensures LastSet(c, "raven", before + [x], k) == LastSet(c, "raven", before, k)
  {
    assert !Valid(c, "raven", x);
    LastSetOneMore(c, "raven", before, x, k);
  }

  /** Empty targets with no target before them take the standing one, which is readable. */
  lemma {:induction false} StandingIsReadable(c: Codec, f: Fields, cs: seq<Control>)
    requires Readable(c, "raven", f, cs) && HasEmpty("raven", cs) && LastSet(c, "raven", cs, RavenTarget).None?
    ensures Legible(Standing(f))
  {
    var i: nat :| i < |cs| && Empty("raven", cs[i]);
    assert ReadableAt(c, "raven", f, cs, i);
    LastSetStays(c, "raven", cs, i, RavenTarget);
  }

  lemma {:induction false} LastSetStays(c: Codec, protocol: string, cs: seq<Control>, i: nat, k: Field)
    requires i <= |cs| && LastSet(c, protocol, cs, k).None?
    ensures LastSet(c, protocol, cs[..i], k).None?
  {
    if i < |cs| {
      LastSetStays(c, protocol, cs[..|cs| - 1], i, k);
      assert cs[..|cs| - 1][..i] == cs[..i];
    } else {
      assert cs[..i] == cs;
    }
  }

  // ---------- when exactly the queue stands for its history ----------

  function KindOf(k: Field): Kind {
    match k
    case RavenTarget => Target case EthTarget => Target case ZelhashTarget => Target
    case IronfishTarget => Target case StratumTarget => Target
    case EthDifficulty => Difficulty case VerthashDifficulty => Difficulty case PearlDifficulty => Difficulty
    case XelisDifficulty => Difficulty case KaspaDifficulty => Difficulty case KaspaTarget => Difficulty
    case NexaDifficulty => Difficulty case NexaTarget => Difficulty
    case _ => Extranonce
  }

  /** A control that sets such a field exactly when it is of the field's kind. */
  predicate Whole(c: Codec, protocol: string, x: Control, k: Field) {
    (!Partial(k) && (Valid(c, protocol, x) || Empty(protocol, x))) || (k == RavenTarget && Valid(c, protocol, x))
  }

  /** Fields that no control of their kind leaves alone are set by the last control of that kind. */
  lemma {:induction false} LastSetIsLast(c: Codec, protocol: string, cs: seq<Control>, k: Field)
    requires forall i :: 0 <= i < |cs| ==> Whole(c, protocol, cs[i], k)
    ensures LastSet(c, protocol, cs, k) ==
      var last := LastOf(cs, KindOf(k));
      if last.Some? then Lookup(Effect(c, protocol, last.value), k) else None
  {
    if |cs| > 0 {
      var before, x := cs[..|cs| - 1], cs[|cs| - 1];
      LastSetIsLast(c, protocol, before, k);
      SetByKind(c, protocol, x, k);
      if x.kind == KindOf(k) && k !in Effect(c, protocol, x) {
        NotOfProtocol(c, protocol, before, k);
      }
    }
  }

  lemma KindOfSets(protocol: string, kind: Kind, k: Field)
    requires k in Sets(protocol, kind)
    ensures kind == KindOf(k)
  {
    match kind
    case Target => assert k in {RavenTarget, EthTarget, ZelhashTarget, IronfishTarget, StratumTarget};
    case Difficulty => assert KindOf(k) == Difficulty;
    case Extranonce => assert k in {ExtraNonce, IronfishXn, BeamPrefix};
  }

  lemma SetByKind(c: Codec, protocol: string, x: Control, k: Field)
    requires Whole(c, protocol, x, k)
    ensures k in Effect(c, protocol, x) <==> x.kind == KindOf(k) && k in Sets(protocol, KindOf(k))
  {
    if Valid(c, protocol, x) {
      ValidOverwrites(c, protocol, map[], x);
      if k in Sets(protocol, x.kind) {
        KindOfSets(protocol, x.kind, k);
      }
    } else {
      assert Effect(c, protocol, x) == map[];
    }
  }

  lemma {:induction false} NotOfProtocol(c: Codec, protocol: string, cs: seq<Control>, k: Field)
    requires k !in Sets(protocol, KindOf(k)) && forall i :: 0 <= i < |cs| ==> Whole(c, protocol, cs[i], k)
    ensures LastSet(c, protocol, cs, k).None?
  {
    if |cs| > 0 {
      NotOfProtocol(c, protocol, cs[..|cs| - 1], k);
      SetByKind(c, protocol, cs[|cs| - 1], k);
    }
  }

  lemma SameLasts(history: seq<Control>, requested: set<string>, algo: string, kind: Kind)
    requires algo in requested
    ensures LastOf(Matching(Coalesced(history, requested), algo), kind) == LastOf(Matching(history, algo), kind)
  {
    QueueKeepsLatest(history, requested, algo, kind);
    LatestIsLast(Coalesced(history, requested), algo, kind);
    LatestIsLast(history, algo, kind);
  }

  /** The fields that may be left alone have the same value after both sequences. */
  ghost predicate AgreeOnPartial(c: Codec, protocol: string, f: Fields, xs: seq<Control>, ys: seq<Control>) {
    forall k :: Partial(k) ==> After(c, protocol, f, xs, k) == After(c, protocol, f, ys, k)
  }

  /** The queue leaves the same fields as every matching control of the history in order, or both end
      in an error, exactly when both or neither are readable and the few fields that controls may
      leave alone agree. */
  lemma QueueStandsIff(c: Codec, protocol: string, f: Fields, history: seq<Control>,
                       requested: set<string>, algo: string)
    requires algo in requested
    ensures var q, h := Matching(Coalesced(history, requested), algo), Matching(history, algo);
      Replay(c, protocol, f, q) == Replay(c, protocol, f, h) <==>
        && (Readable(c, protocol, f, q) <==> Readable(c, protocol, f, h))
        && (Readable(c, protocol, f, h) ==> AgreeOnPartial(c, protocol, f, q, h))
  {
    var q, h := Matching(Coalesced(history, requested), algo), Matching(history, algo);
    QueueWithin(history, requested, algo);
    ReplayMeans(c, protocol, f, q);
    ReplayMeans(c, protocol, f, h);
    if Readable(c, protocol, f, q) && Readable(c, protocol, f, h) {
      SameReplayIff(c, protocol, f, history, requested, algo);
    }
  }

  lemma SameReplayIff(c: Codec, protocol: string, f: Fields, history: seq<Control>,
                      requested: set<string>, algo: string)
    requires algo in requested
    requires Readable(c, protocol, f, Matching(Coalesced(history, requested), algo))
    requires Readable(c, protocol, f, Matching(history, algo))
    ensures var q, h := Matching(Coalesced(history, requested), algo), Matching(history, algo);
      Replay(c, protocol, f, q) == Replay(c, protocol, f, h) <==> AgreeOnPartial(c, protocol, f, q, h)
  {
    var q, h := Matching(Coalesced(history, requested), algo), Matching(history, algo);
    QueueWithin(history, requested, algo);
    ReplayMeans(c, protocol, f, q);
    ReplayMeans(c, protocol, f, h);
    var x, y := Replay(c, protocol, f, q).value, Replay(c, protocol, f, h).value;
    forall k | !Partial(k)
      ensures After(c, protocol, f, q, k) == After(c, protocol, f, h, k)
    {
      ReadableKinds(c, protocol, f, q);
      ReadableKinds(c, protocol, f, h);
      LastSetIsLast(c, protocol, q, k);
      LastSetIsLast(c, protocol, h, k);
      SameLasts(history, requested, algo, KindOf(k));
    }
    if AgreeOnPartial(c, protocol, f, q, h) {
      forall k ensures Lookup(x, k) == Lookup(y, k) {
      }
      SameFields(x, y);
    }
  }

  lemma ReadableKinds(c: Codec, protocol: string, f: Fields, cs: seq<Control>)
    requires Readable(c, protocol, f, cs)
    ensures forall i :: 0 <= i < |cs| ==> Valid(c, protocol, cs[i]) || Empty(protocol, cs[i])
  {
    forall i: nat | i < |cs| ensures Valid(c, protocol, cs[i]) || Empty(protocol, cs[i]) {
      assert ReadableAt(c, protocol, f, cs, i);
    }
  }

  lemma QueueWithin(history: seq<Control>, requested: set<string>, algo: string)
    ensures var q := Matching(Coalesced(history, requested), algo);
      forall i :: 0 <= i < |q| ==> q[i] in Matching(history, algo)
  {
    var q := Matching(Coalesced(history, requested), algo);
    QueueIsFromHistory(history, requested);
    MatchingMembers(Coalesced(history, requested), algo);
    forall i | 0 <= i < |q| ensures q[i] in Matching(history, algo) {
      MatchingHas(history, algo, q[i]);
    }
  }

  lemma ReadableIsValid(c: Codec, protocol: string, f: Fields, cs: seq<Control>)
    requires forall i :: 0 <= i < |cs| ==> !Empty(protocol, cs[i])
    ensures Readable(c, protocol, f, cs) <==> AllValid(c, protocol, cs)
  {
    if Readable(c, protocol, f, cs) {
      ReadableKinds(c, protocol, f, cs);
    }
  }

  /** What an extranonce gives to a field that it may leave alone. */
  function Gives(c: Codec, protocol: string, x: Control, k: Field): Option<string> {
    if x.kind != Extranonce then None
    else if protocol == "xelis" then
      var nonce := c.bytes32(x.value);
      var key := if x.publicKey.Some? then c.bytes32(x.publicKey.value) else "";
      var both := nonce != "" && key != "";
      if k == XelisPublicKey && x.publicKey.Some? then Some(if both then key else "")
      else if k == XelisExtraNonce && x.publicKey.Some? then Some(if both then nonce else "")
      else if k == XelisExtraNonce && nonce != "" then Some(nonce)
      else None
    else if k == ExtraNonceSize && x.size.Some? then c.size(x.size.value)
    else None
  }

  /** What the last extranonce to give the field something gives it, or else what it was. */
  function Given(c: Codec, protocol: string, f: Fields, cs: seq<Control>, k: Field): Option<string> {
    if |cs| == 0 then Lookup(f, k)
    else if Gives(c, protocol, cs[|cs| - 1], k).Some? then Gives(c, protocol, cs[|cs| - 1], k)
    else Given(c, protocol, f, cs[..|cs| - 1], k)
  }

  lemma GivesIsEffect(c: Codec, protocol: string, x: Control, k: Field)
    requires Valid(c, protocol, x) && Partial(k) && k != RavenTarget
    ensures Lookup(Effect(c, protocol, x), k) == Gives(c, protocol, x, k)
  {
    match x.kind
    case Target => TargetSets(c, protocol, map[], x);
    case Difficulty => DifficultySets(c, protocol, map[], x);
    case Extranonce =>
      if protocol == "xelis" {
        XelisGives(c, x, k);
      } else {
        ExtranonceSets(c, protocol, map[], x);
      }
  }

  lemma XelisGives(c: Codec, x: Control, k: Field)
    requires x.kind == Extranonce
    ensures Lookup(Effect(c, "xelis", x), k) == Gives(c, "xelis", x, k)
  {
    var g := ApplyExtranonce(c, "xelis", map[], x);
    assert g.Some? && Effect(c, "xelis", x) == g.value;
  }

  lemma {:induction false} GivenIsAfter(c: Codec, protocol: string, f: Fields, cs: seq<Control>, k: Field)
    requires AllValid(c, protocol, cs) && Partial(k) && k != RavenTarget
    ensures After(c, protocol, f, cs, k) == Given(c, protocol, f, cs, k)
  {
    if |cs| > 0 {
      GivenIsAfter(c, protocol, f, cs[..|cs| - 1], k);
      GivesIsEffect(c, protocol, cs[|cs| - 1], k);
    }
  }

  /** Without empty Raven targets a Raven target is a field like the others. */
  lemma SameRaven(c: Codec, protocol: string, f: Fields, history: seq<Control>, requested: set<string>, algo: string)
    requires algo in requested && AllValid(c, protocol, Matching(history, algo))
    ensures After(c, protocol, f, Matching(Coalesced(history, requested), algo), RavenTarget)
      == After(c, protocol, f, Matching(history, algo), RavenTarget)
  {
    var q, h := Matching(Coalesced(history, requested), algo), Matching(history, algo);
    QueueWithin(history, requested, algo);
    forall i | 0 <= i < |q| ensures Valid(c, protocol, q[i]) && !Empty(protocol, q[i]) {
      assert q[i] in h;
    }
    LastSetIsLast(c, protocol, q, RavenTarget);
    LastSetIsLast(c, protocol, h, RavenTarget);
    OnlyRavenEmpties(protocol, q);
    OnlyRavenEmpties(protocol, h);
    SameLasts(history, requested, algo, Target);
  }

  /** The fields that an extranonce may leave alone get the same from both sequences. */
  ghost predicate SameGiven(c: Codec, protocol: string, f: Fields, xs: seq<Control>, ys: seq<Control>) {
    forall k :: Partial(k) && k != RavenTarget ==> Given(c, protocol, f, xs, k) == Given(c, protocol, f, ys, k)
  }

  /** Without empty Raven targets: the queue stands for its history exactly when one that is queued is
      malformed, or none at all is and the extranonces give the same. */
  lemma WithoutEmptiesIff(c: Codec, protocol: string, f: Fields, history: seq<Control>,
                          requested: set<string>, algo: string)
    requires algo in requested
    requires forall i :: 0 <= i < |Matching(history, algo)| ==> !Empty(protocol, Matching(history, algo)[i])
    ensures var q, h := Matching(Coalesced(history, requested), algo), Matching(history, algo);
      Replay(c, protocol, f, q) == Replay(c, protocol, f, h) <==>
        !AllValid(c, protocol, q) || (AllValid(c, protocol, h) && SameGiven(c, protocol, f, q, h))
  {
    var q, h := Matching(Coalesced(history, requested), algo), Matching(history, algo);
    QueueWithin(history, requested, algo);
    QueueStandsIff(c, protocol, f, history, requested, algo);
    ReadableIsValid(c, protocol, f, h);
    ReadableIsValid(c, protocol, f, q);
    if AllValid(c, protocol, h) {
      SameRaven(c, protocol, f, history, requested, algo);
      forall k | Partial(k) && k != RavenTarget
        ensures After(c, protocol, f, q, k) == Given(c, protocol, f, q, k)
        ensures After(c, protocol, f, h, k) == Given(c, protocol, f, h, k)
      {
        GivenIsAfter(c, protocol, f, q, k);
        GivenIsAfter(c, protocol, f, h, k);
      }
    }
  }

  /** A target or a difficulty, not an empty Raven target. */
  predicate Overwrites(protocol: string, control: Control) {
    control.kind != Extranonce && !Empty(protocol, control)
  }

  lemma {:induction false} NothingGiven(c: Codec, protocol: string, f: Fields, cs: seq<Control>, k: Field)
    requires forall i :: 0 <= i < |cs| ==> Gives(c, protocol, cs[i], k).None?
    ensures Given(c, protocol, f, cs, k) == Lookup(f, k)
  {
    if |cs| > 0 {
      NothingGiven(c, protocol, f, cs[..|cs| - 1], k);
    }
  }

  /** For targets and difficulties: the queue stands for its history exactly when all controls were
      valid or one that is still queued is not; a malformed control that a later one replaced is
      forgotten. */
  lemma QueueStandsForHistory(c: Codec, protocol: string, f: Fields, history: seq<Control>,
                              requested: set<string>, algo: string)
    requires algo in requested
    requires forall i :: 0 <= i < |Matching(history, algo)| ==> Overwrites(protocol, Matching(history, algo)[i])
    ensures var q, h := Matching(Coalesced(history, requested), algo), Matching(history, algo);
      Replay(c, protocol, f, q) == Replay(c, protocol, f, h) <==>
        AllValid(c, protocol, h) || !AllValid(c, protocol, q)
  {
    var q, h := Matching(Coalesced(history, requested), algo), Matching(history, algo);
    QueueWithin(history, requested, algo);
    WithoutEmptiesIff(c, protocol, f, history, requested, algo);
    forall k | Partial(k) ensures Given(c, protocol, f, q, k) == Given(c, protocol, f, h, k) {
      NothingGiven(c, protocol, f, q, k);
      NothingGiven(c, protocol, f, h, k);
    }
  }

  /** With extranonces, outside XELIS: exactly when one that is queued is malformed, or none at all is
      and the size comes out the same. */
  lemma ExtranonceStandsIff(c: Codec, protocol: string, f: Fields, history: seq<Control>,
                            requested: set<string>, algo: string)
    requires algo in requested && protocol != "xelis"
    requires forall i :: 0 <= i < |Matching(history, algo)| ==> !Empty(protocol, Matching(history, algo)[i])
    ensures var q, h := Matching(Coalesced(history, requested), algo), Matching(history, algo);
      Replay(c, protocol, f, q) == Replay(c, protocol, f, h) <==>
        || !AllValid(c, protocol, q)
        || (AllValid(c, protocol, h)
            && Given(c, protocol, f, q, ExtraNonceSize) == Given(c, protocol, f, h, ExtraNonceSize))
  {
    var q, h := Matching(Coalesced(history, requested), algo), Matching(history, algo);
    WithoutEmptiesIff(c, protocol, f, history, requested, algo);
    forall k | Partial(k) && k != ExtraNonceSize ensures Given(c, protocol, f, q, k) == Given(c, protocol, f, h, k) {
      NothingGiven(c, protocol, f, q, k);
      NothingGiven(c, protocol, f, h, k);
    }
    assert Partial(ExtraNonceSize);
  }

  /** For XELIS: exactly when one that is queued is malformed, or none at all is and the nonce and the
      key come out the same. */
  lemma XelisStandsIff(c: Codec, f: Fields, history: seq<Control>, requested: set<string>, algo: string)
    requires algo in requested
    ensures var q, h := Matching(Coalesced(history, requested), algo), Matching(history, algo);
      Replay(c, "xelis", f, q) == Replay(c, "xelis", f, h) <==>
        || !AllValid(c, "xelis", q)
        || (AllValid(c, "xelis", h)
            && Given(c, "xelis", f, q, XelisExtraNonce) == Given(c, "xelis", f, h, XelisExtraNonce)
            && Given(c, "xelis", f, q, XelisPublicKey) == Given(c, "xelis", f, h, XelisPublicKey))
  {
    var q, h := Matching(Coalesced(history, requested), algo), Matching(history, algo);
    WithoutEmptiesIff(c, "xelis", f, history, requested, algo);
    NothingGiven(c, "xelis", f, q, ExtraNonceSize);
    NothingGiven(c, "xelis", f, h, ExtraNonceSize);
    assert Partial(XelisExtraNonce) && Partial(XelisPublicKey);
  }

  lemma {:induction false} MatchingMembers(cs: seq<Control>, algo: string)
    ensures forall i :: 0 <= i < |Matching(cs, algo)| ==> Matches(Matching(cs, algo)[i], algo)
  {
    if |cs| > 0 {
      MatchingMembers(cs[..|cs| - 1], algo);
    }
  }

  lemma {:induction false} MatchingHas(cs: seq<Control>, algo: string, control: Control)
    requires control in cs && Matches(control, algo)
    ensures control in Matching(cs, algo)
  {
    MatchingAppend(cs[..|cs| - 1], cs[|cs| - 1], algo);
    if cs[|cs| - 1] != control {
      MatchingHas(cs[..|cs| - 1], algo, control);
    }
  }

  /** A codec for examples. */
  function Plain(): Codec {
    Codec(v => v != "", v => Some(v), v => Some(v), v => v, v => v, v => v, v => v, v => Some(v))
  }

  /** An empty Raven target takes the one before it; that one is gone from the queue. */
  lemma EmptyTargetNeedsHistory()
    ensures var h := [Control(Target, "", "ff", None, None), Control(Target, "", "", None, None)];
      && Replay(Plain(), "raven", map[], Matching(h, "kawpow")).Some?
      && Replay(Plain(), "raven", map[], Matching(Coalesced(h, {"kawpow"}), "kawpow")).None?
  {
    var a, b := Control(Target, "", "ff", None, None), Control(Target, "", "", None, None);
    TwoOfAKey(Plain(), "raven", a, b, {"kawpow"}, "kawpow");
  }

  /** A malformed control that a later one replaced would have ended the connection. */
  lemma ReplacedErrorIsForgotten(bad: Control, good: Control)
    requires bad.kind == good.kind == Target && bad.algo == good.algo == "" && bad.value == "" && WithoutPrefix(good.value) != ""
    ensures Replay(Plain(), "eth", map[], Matching([bad, good], "etchash")).None?
    ensures Replay(Plain(), "eth", map[], Matching(Coalesced([bad, good], {"etchash"}), "etchash")).Some?
  {
    TwoOfAKey(Plain(), "eth", bad, good, {"etchash"}, "etchash");
  }

  /** An extranonce without a size keeps the size before it; that one is gone from the queue. */
  lemma ExtranonceNeedsHistory(a: Control, b: Control)
    requires a.kind == b.kind == Extranonce && a.algo == b.algo == ""
    requires a.value != "" && b.value != "" && a.size.Some? && b.size.None?
    ensures var r := Replay(Plain(), "login", map[], Matching([a, b], "rx/0"));
      r.Some? && ExtraNonceSize in r.value
    ensures var r := Replay(Plain(), "login", map[], Matching(Coalesced([a, b], {"rx/0"}), "rx/0"));
      r.Some? && ExtraNonceSize !in r.value
  {
    TwoOfAKey(Plain(), "login", a, b, {"rx/0"}, "rx/0");
    PlainExtranonce(map[], a);
    PlainExtranonce(map[], b);
    PlainExtranonce(Apply(Plain(), "login", map[], a).value, b);
  }

  /** A XELIS extranonce without a key keeps the key before it; that one is gone from the queue. */
  lemma XelisKeyNeedsHistory(a: Control, b: Control)
    requires a.kind == b.kind == Extranonce && a.algo == b.algo == "" && a.value != "" && b.value != ""
    requires a.publicKey.Some? && a.publicKey.value != "" && b.publicKey.None?
    ensures var r := Replay(Plain(), "xelis", map[], Matching([a, b], "xelishashv3"));
      r.Some? && Lookup(r.value, XelisPublicKey) == a.publicKey
    ensures var r := Replay(Plain(), "xelis", map[], Matching(Coalesced([a, b], {"xelishashv3"}), "xelishashv3"));
      r.Some? && XelisPublicKey !in r.value
  {
    TwoOfAKey(Plain(), "xelis", a, b, {"xelishashv3"}, "xelishashv3");
    PlainXelis(map[], a);
    PlainXelis(map[], b);
    PlainXelis(Apply(Plain(), "xelis", map[], a).value, b);
  }

  lemma PlainXelis(f: Fields, x: Control)
    requires x.kind == Extranonce && x.value != "" && (x.publicKey.Some? ==> x.publicKey.value != "")
    ensures var r := Apply(Plain(), "xelis", f, x);
      r.Some? && Lookup(r.value, XelisPublicKey) == if x.publicKey.Some? then x.publicKey else Lookup(f, XelisPublicKey)
  {
  }

  lemma PlainExtranonce(f: Fields, control: Control)
    requires control.kind == Extranonce && control.value != ""
    ensures var r := Apply(Plain(), "login", f, control);
      r.Some? && (ExtraNonceSize in r.value <==> control.size.Some? || ExtraNonceSize in f)
  {
  }

  lemma TwoOfAKey(c: Codec, protocol: string, a: Control, b: Control, requested: set<string>, algo: string)
    requires a.algo == b.algo == "" && a.kind == b.kind
    ensures Matching(Coalesced([a, b], requested), algo) == [b] && Matching([a, b], algo) == [a, b]
    ensures Replay(c, protocol, map[], [b]) == Apply(c, protocol, map[], b)
    ensures var f := Apply(c, protocol, map[], a);
      Replay(c, protocol, map[], [a, b]) == if f.None? then None else Apply(c, protocol, f.value, b)
  {
    QueueOfTwo(a, b, requested);
    MatchingAppend([], a, algo);
    MatchingAppend([], b, algo);
    MatchingAppend([a], b, algo);
    assert [a] + [b] == [a, b] && [] + [a] == [a] && [] + [b] == [b];
    ReplayOneMore(c, protocol, map[], [], a);
    ReplayOneMore(c, protocol, map[], [], b);
    ReplayOneMore(c, protocol, map[], [a], b);
  }

  lemma QueueOfTwo(a: Control, b: Control, requested: set<string>)
    requires a.algo == b.algo == "" && a.kind == b.kind
    ensures Coalesced([a, b], requested) == [b]
  {
    assert [a, b][..1] == [a] && [a][..0] == [];
    assert Coalesced([a], requested) == [a];
    assert Others([a], b) == [];
  }

  function ReplayFirst(c: Codec, protocol: string, f: Fields, pending: seq<Control>, i: nat, algo: string): Option<Fields>
    requires i <= |pending|
  {
    Replay(c, protocol, f, Matching(pending[..i], algo))
  }

  lemma NextPending(c: Codec, protocol: string, f: Fields, pending: seq<Control>, i: nat, algo: string)
    requires i < |pending|
    ensures var g := ReplayFirst(c, protocol, f, pending, i, algo);
      ReplayFirst(c, protocol, f, pending, i + 1, algo) ==
        if g.None? || !Matches(pending[i], algo) then g else Apply(c, protocol, g.value, pending[i])
  {
    assert pending[..i + 1] == pending[..i] + [pending[i]];
    MatchingAppend(pending[..i], pending[i], algo);
    ReplayOneMore(c, protocol, f, Matching(pending[..i], algo), pending[i]);
  }

  lemma {:induction false} ErrorStays(c: Codec, protocol: string, f: Fields, pending: seq<Control>, i: nat, algo: string)
    requires i <= |pending| && ReplayFirst(c, protocol, f, pending, i, algo).None?
    ensures ReplayFirst(c, protocol, f, pending, |pending|, algo).None?
    decreases |pending| - i
  {
    if i < |pending| {
      NextPending(c, protocol, f, pending, i, algo);
      ErrorStays(c, protocol, f, pending, i + 1, algo);
    }
  }

  // ---------- the pool record ----------

  class Pool {
    const requested: set<string>     // the algorithms that the login advertised
    var jobAlgo: string              // empty until the pool has named one
    var protocol: string
    var controls: seq<Control>
    var fields: Fields
    ghost var writtenFor: map<Field, string>   // the algorithm in force when a field was set

    /** The current algorithm was advertised, the queue is small, and no field was set for another
        algorithm; what is not cleared with an algorithm was set by none. */
    ghost predicate Valid()
      reads this
    {
      && (jobAlgo != "" ==> jobAlgo in requested && protocol == ProtocolFor(jobAlgo))
      && UniqueKeys(controls) && Advertised(controls, requested) && |controls| <= 3 * (|requested| + 1)
      && writtenFor.Keys == fields.Keys
      && forall k :: k in fields ==> writtenFor[k] == "" || (writtenFor[k] == jobAlgo && k in CLEARED)
    }

    /** A new connection, after the login request was sent; `login` is what the record has already. */
    constructor (algos: set<string>, login: Fields)
      ensures Valid() && requested == algos && jobAlgo == "" && controls == [] && fields == login
    {
      requested, jobAlgo, protocol, controls, fields := algos, "", "login", [], login;
      writtenFor := map k | k in login :: "";
      new;
      KeysBound([], requested);
    }

    method ClearJobState()
      modifies this`fields, this`writtenFor
      ensures fields == old(fields) - CLEARED && writtenFor == old(writtenFor) - CLEARED
    {
      fields, writtenFor := fields - CLEARED, writtenFor - CLEARED;
    }

    /** Change to an algorithm; what the pool set for another one is forgotten. */
    method PrepareFamily(algo: string) returns (ok: bool)
      requires Valid()
      modifies this`fields, this`writtenFor, this`jobAlgo, this`protocol
      ensures Valid() && (ok <==> algo in requested)
      ensures ok ==> jobAlgo == algo && (algo != "" ==> protocol == ProtocolFor(algo))
      ensures ok ==> fields == if old(jobAlgo) != "" && old(jobAlgo) != algo then old(fields) - CLEARED else old(fields)
      ensures !ok ==> unchanged(this)
    {
      if algo !in requested {
        return false;
      }
      if jobAlgo != "" && jobAlgo != algo {
        ClearJobState();
      }
      jobAlgo := algo;
      protocol := ProtocolFor(algo);
      ok := true;
    }

    /** Note which algorithm the changed fields were set for. */
    ghost method Note(was: Fields)
      requires writtenFor.Keys == was.Keys && forall k :: k !in CLEARED ==> Lookup(fields, k) == Lookup(was, k)
      requires forall k :: k in was ==> writtenFor[k] == "" || (writtenFor[k] == jobAlgo && k in CLEARED)
      modifies this`writtenFor
      ensures writtenFor.Keys == fields.Keys
      ensures forall k :: k in fields ==> writtenFor[k] == "" || (writtenFor[k] == jobAlgo && k in CLEARED)
    {
      forall k | k in fields && !(k in was && fields[k] == was[k]) ensures k in CLEARED {
        assert k !in CLEARED ==> Lookup(fields, k) == Lookup(was, k);
      }
      writtenFor := map k | k in fields :: if k in was && fields[k] == was[k] then writtenFor[k] else jobAlgo;
    }

    method ApplyControl(c: Codec, control: Control) returns (ok: bool)
      requires Valid()
      modifies this`fields, this`writtenFor
      ensures Valid() && ok == Apply(c, protocol, old(fields), control).Some?
      ensures fields == Outcome(c, protocol, old(fields), control)
    {
      ghost var was := fields;
      forall k | k !in CLEARED
        ensures Lookup(Outcome(c, protocol, was, control), k) == Lookup(was, k)
      {
        ClearedCoversControls(c, protocol, was, control, k);
      }
      var f := Apply(c, protocol, fields, control);
      ok := f.Some?;
      fields := if ok then f.value else LeftByError(c, protocol, fields, control);
      Note(was);
    }

    /** A control between jobs: it replaces the one of its kind and algorithm. */
    method QueueControl(control: Control)
      requires Valid()
      modifies this`controls
      ensures Valid() && controls == Enqueue(old(controls), control, requested)
    {
      if control.algo != "" && control.algo !in requested {
        return;
      }
      OthersKeepOrder(controls, control);
      controls := Others(controls, control) + [control];
      KeysBound(controls, requested);
    }

    /** Control i of the queue, if it is unmarked or marked with the current algorithm. */
    method ApplyNext(c: Codec, pending: seq<Control>, i: nat, ghost f: Fields) returns (ok: bool)
      requires Valid() && i < |pending| && ReplayFirst(c, protocol, f, pending, i, jobAlgo) == Some(fields)
      modifies this`fields, this`writtenFor
      ensures Valid() && ok == ReplayFirst(c, protocol, f, pending, i + 1, jobAlgo).Some?
      ensures ok ==> ReplayFirst(c, protocol, f, pending, i + 1, jobAlgo) == Some(fields)
    {
      NextPending(c, protocol, f, pending, i, jobAlgo);
      ok := true;
      if Matches(pending[i], jobAlgo) {
        ok := ApplyControl(c, pending[i]);
      }
    }

    /** The queued controls that apply, in order. */
    method ApplyPending(c: Codec, pending: seq<Control>) returns (ok: bool)
      requires Valid()
      modifies this`fields, this`writtenFor
      ensures Valid() && ok == Replay(c, protocol, old(fields), Matching(pending, jobAlgo)).Some?
      ensures ok ==> Replay(c, protocol, old(fields), Matching(pending, jobAlgo)) == Some(fields)
    {
      assert pending[..|pending|] == pending;
      var i := 0;
      while i < |pending|
        invariant 0 <= i <= |pending| && Valid()
        invariant ReplayFirst(c, protocol, old(fields), pending, i, jobAlgo) == Some(fields)
      {
        ok := ApplyNext(c, pending, i, old(fields));
        if !ok {
          ErrorStays(c, protocol, old(fields), pending, i + 1, jobAlgo);
          return false;
        }
        i := i + 1;
      }
      ok := true;
    }

    /** A job announcement, marked with an algorithm or for the current one, and decoded to a job of
        some algorithm.  It is accepted exactly when its algorithm was advertised, the job is of that
        algorithm, and the matching controls of the queue apply without error, on a clean record if
        the algorithm changed; then the fields are what those controls leave. */
    method Announce(c: Codec, marker: string, decoded: string) returns (accepted: bool)
      requires Valid()
      modifies this
      ensures Valid()
      ensures var algo := if marker != "" then marker else old(jobAlgo);
        var base := if old(jobAlgo) != "" && old(jobAlgo) != algo then old(fields) - CLEARED else old(fields);
        var replay := Replay(c, ProtocolFor(algo), base, Matching(old(controls), algo));
        && (accepted <==> algo != "" && algo in requested && decoded == algo && replay.Some?)
        && (accepted ==> jobAlgo == algo && controls == [] && replay == Some(fields))
    {
      var algo := if marker != "" then marker else jobAlgo;
      if algo == "" {
        return false;
      }
      var ok := PrepareFamily(algo);
      if !ok {
        return false;
      }
      var pending := controls;
      controls := [];
      KeysBound([], requested);
      ok := ApplyPending(c, pending);
      if !ok {
        return false;
      }
      accepted := decoded == jobAlgo;
    }
  }

  lemma ReplayOneMore(c: Codec, protocol: string, f: Fields, cs: seq<Control>, x: Control)
    ensures var g := Replay(c, protocol, f, cs);
      Replay(c, protocol, f, cs + [x]) == if g.None? then None else Apply(c, protocol, g.value, x)
  {
    assert (cs + [x])[..|cs|] == cs;
  }
}
