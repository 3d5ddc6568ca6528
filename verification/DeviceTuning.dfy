/** Device lists: comma-separated entries of a device, its tuning and its number of processes, as
    text and as data.
 */
module DeviceTuning {
  import opened Basics

  /** A tuning value is a number or one of a few words. */
  datatype Value = Num(n: nat) | Word(w: string)

  type Tuning = map<string, Value>

  datatype Entry = Entry(device: string, tuning: Tuning, processes: nat)

  // ---------- text ----------

  predicate IsDigit(c: char) { '0' <= c <= '9' }

  predicate AllDigits(s: string) { forall i :: 0 <= i < |s| ==> IsDigit(s[i]) }

  predicate IsSpace(c: char) { c == ' ' || '\t' <= c <= '\r' }

  function TrimStart(s: string): string {
    if |s| > 0 && IsSpace(s[0]) then TrimStart(s[1..]) else s
  }

  function TrimEnd(s: string): string {
    if |s| > 0 && IsSpace(s[|s| - 1]) then TrimEnd(s[..|s| - 1]) else s
  }

  function Trim(s: string): string { TrimEnd(TrimStart(s)) }

  /** The position of the first c, or the length. */
  function IndexOf(s: string, c: char): (i: nat)
    ensures i <= |s| && (i < |s| ==> s[i] == c) && forall j :: 0 <= j < i ==> s[j] != c
  {
    if |s| == 0 || s[0] == c then 0 else 1 + IndexOf(s[1..], c)
  }

  function Split(s: string, c: char): (parts: seq<string>)
    ensures |parts| > 0
    decreases |s|
  {
    var i := IndexOf(s, c);
    if i == |s| then [s] else [s[..i]] + Split(s[i + 1..], c)
  }

  function Join(parts: seq<string>, c: char): string
    requires |parts| > 0
  {
    if |parts| == 1 then parts[0] else parts[0] + [c] + Join(parts[1..], c)
  }

  predicate Lacks(s: string, c: char) { forall i :: 0 <= i < |s| ==> s[i] != c }

  lemma IndexAfter(s: string, c: char, rest: string)
    requires Lacks(s, c)
    ensures IndexOf(s + [c] + rest, c) == |s|
  {
    var t := s + [c] + rest;
    assert t[|s|] == c && forall k :: 0 <= k < |s| ==> t[k] == s[k];
  }

  lemma SplitFirst(s: string, c: char, rest: string)
    requires Lacks(s, c)
    ensures Split(s + [c] + rest, c) == [s] + Split(rest, c)
  {
    IndexAfter(s, c, rest);
    var t := s + [c] + rest;
    assert t[..|s|] == s && t[|s| + 1..] == rest;
  }

  lemma {:induction false} SplitUndoesJoin(parts: seq<string>, c: char)
    requires |parts| > 0 && forall i :: 0 <= i < |parts| ==> Lacks(parts[i], c)
    ensures Split(Join(parts, c), c) == parts
  {
    if |parts| == 1 {
      assert IndexOf(parts[0], c) == |parts[0]|;
    } else {
      SplitUndoesJoin(parts[1..], c);
      SplitFirst(parts[0], c, Join(parts[1..], c));
    }
  }

  function Decimal(n: nat): (s: string)
    ensures |s| > 0 && AllDigits(s) && (n > 0 ==> s[0] != '0')
  {
    if n < 10 then [('0' as int + n) as char] else Decimal(n / 10) + [('0' as int + n % 10) as char]
  }

  function FromDecimal(s: string): nat
    requires AllDigits(s)
  {
    if |s| == 0 then 0 else 10 * FromDecimal(s[..|s| - 1]) + (s[|s| - 1] as int - '0' as int)
  }

  lemma {:induction false} DecimalRoundTrip(n: nat)
    ensures FromDecimal(Decimal(n)) == n
  {
    var s := Decimal(n);
    if n < 10 {
      assert s[..0] == "";
    } else {
      DecimalRoundTrip(n / 10);
      assert s[..|s| - 1] == Decimal(n / 10);
    }
  }

  /** How many digits a text starts with. */
  function DigitCount(s: string): (k: nat)
    ensures k <= |s| && AllDigits(s[..k]) && (k < |s| ==> !IsDigit(s[k]))
  {
    if |s| == 0 || !IsDigit(s[0]) then 0 else
      var k := DigitCount(s[1..]);
      assert s[..1 + k] == [s[0]] + s[1..][..k];
      1 + k
  }

  lemma {:induction false} DigitsThenRest(d: string, rest: string)
    requires AllDigits(d) && (|rest| > 0 ==> !IsDigit(rest[0]))
    ensures DigitCount(d + rest) == |d|
  {
    if |d| > 0 {
      DigitsThenRest(d[1..], rest);
      assert (d + rest)[1..] == d[1..] + rest;
    } else {
      assert d + rest == rest;
    }
  }

  // ---------- what is supported ----------

  const FIELD_ORDER: seq<string> := [
    "intensity", "seed_workgroup", "m", "slots", "workgroup", "seed_blocks", "dag_workgroup", "dag_chunk",
    "prehash_workgroup", "table_chunk", "search_mode", "n", "k", "rank", "cache_block", "tile",
    "compact_workgroup", "scatter_workgroup", "layout"]

  function AllowedFields(algo: string): set<string> {
    match algo
    case "" => set i | 0 <= i < |FIELD_ORDER| :: FIELD_ORDER[i]
    case "cn/gpu" => {"intensity"} case "c29" => {"seed_workgroup", "seed_blocks"} case "c30" => {"intensity"}
    case "etchash" => {"intensity", "dag_workgroup", "dag_chunk"} case "octopus" => {"intensity"}
    case "autolykos2" => {"intensity", "workgroup", "prehash_workgroup", "table_chunk", "search_mode"}
    case "hoohash" => {"intensity", "workgroup"} case "walahash" => {"intensity"}
    case "xelishashv3" => {"intensity"} case "nexapow" => {"intensity"} case "equihash192_7" => {"intensity"}
    case "zhash" => {"intensity"} case "verthash" => {"intensity"}
    case "pearlhash" => {"m", "n", "k", "rank", "cache_block", "tile"} case "zelhash" => {"slots"}
    case "beamhash3" => {"workgroup", "compact_workgroup", "scatter_workgroup", "layout"}
    case "kawpow" => {"intensity", "workgroup", "dag_workgroup", "dag_chunk"}
    case "firopow" => {"intensity", "workgroup", "dag_workgroup", "dag_chunk"}
    case "evrprogpow" => {"intensity", "workgroup", "dag_workgroup", "dag_chunk"}
    case "meowpow" => {"intensity", "workgroup", "dag_workgroup", "dag_chunk"}
    case "fishhash" => {"intensity", "workgroup", "search_mode"}
    case "karlsenhashv2" => {"intensity", "workgroup", "search_mode"}
    case _ => {}
  }

  function MainField(algo: string): string {
    match algo
    case "c29" => "seed_workgroup" case "pearlhash" => "m" case "zelhash" => "slots"
    case "beamhash3" => "workgroup" case _ => "intensity"
  }

  function Choices(field: string): set<string> {
    match field
    case "search_mode" => {"auto", "scalar", "cooperative"}
    case "layout" => {"auto", "compact", "full"}
    case "tile" => {"auto", "1x1", "2x2", "2x4", "4x2", "4x4", "8x2"}
    case _ => {}
  }

  predicate FixedIntensity(algo: string) { algo == "c30" || algo == "equihash192_7" || algo == "zhash" }

  predicate IntegerOk(field: string, n: nat) {
    && (if field == "dag_chunk" || field == "table_chunk" || field == "cache_block" then 0 else 1) <= n <= 0xFFFF_FFFF
    && (field == "seed_workgroup" ==> n in {64, 128, 256})
    && (field == "seed_blocks" ==> n in {4, 8, 16, 32})
    && (field == "slots" ==> n % 16 == 0)
  }

  /** A value in its normal form. */
  predicate ValueOk(field: string, v: Value) {
    if Choices(field) != {} then v.Word? && v.w in Choices(field) else v.Num? && IntegerOk(field, v.n)
  }

  function Number(t: Tuning, field: string): Option<nat> {
    if field in t && t[field].Num? then Some(t[field].n) else None
  }

  predicate OneOf(n: Option<nat>, choices: set<nat>) { n.Some? ==> n.value in choices }

  function Workgroups(algo: string): set<nat> {
    match algo
    case "autolykos2" => {32, 64, 128, 256} case "hoohash" => {64, 128, 256} case "pearlhash" => {32, 64, 128, 256}
    case "kawpow" => {64, 128, 256, 512} case "firopow" => {64, 128, 256, 512}
    case "evrprogpow" => {64, 128, 256, 512} case "meowpow" => {64, 128, 256, 512}
    case "fishhash" => {64, 128, 256, 512} case "karlsenhashv2" => {64, 128, 256, 512}
    case _ => {}
  }

  predicate MultipleOf16(n: Option<nat>, maximum: nat) {
    n.Some? ==> 16 <= n.value <= maximum && n.value % 16 == 0
  }

  predicate MatrixSide(n: Option<nat>) {
    n.Some? ==> 128 <= n.value <= 0x100_0000 && n.value % 32 == 0
  }

  /** What the fields of an algorithm have to satisfy together. */
  predicate Constraints(algo: string, t: Tuning) {
    && (FixedIntensity(algo) && "intensity" in t ==> t["intensity"] == Num(1))
    && (Workgroups(algo) != {} ==> OneOf(Number(t, "workgroup"), Workgroups(algo)))
    && OneOf(Number(t, "dag_workgroup"), {32, 64, 128, 256, 512})
    && OneOf(Number(t, "prehash_workgroup"), {32, 64, 128, 256})
    && (algo == "beamhash3" ==>
          && MultipleOf16(Number(t, "workgroup"), 1024) && MultipleOf16(Number(t, "compact_workgroup"), 512)
          && MultipleOf16(Number(t, "scatter_workgroup"), 1024))
    && (algo == "pearlhash" ==>
          && MatrixSide(Number(t, "m")) && MatrixSide(Number(t, "n"))
          && (var k := Number(t, "k"); k.Some? ==> 1024 <= k.value <= 0x1_0000 && k.value % 64 == 0)
          && OneOf(Number(t, "rank"), {128, 256, 512, 1024})
          && (var k, r := Number(t, "k"), Number(t, "rank");
              k.Some? && r.Some? ==> 16 * r.value <= k.value <= 4 * r.value * r.value))
  }

  predicate ValidTuning(algo: string, t: Tuning) {
    t.Keys <= AllowedFields(algo) && (forall f :: f in t ==> ValueOk(f, t[f])) && Constraints(algo, t)
  }

  // ---------- printing ----------

  function ValueText(v: Value): string {
    if v.Num? then Decimal(v.n) else v.w
  }

  /** The fields of a tuning in the given order, each as name=value. */
  function Parts(order: seq<string>, t: Tuning): seq<string> {
    if |order| == 0 then []
    else
      var rest := Parts(order[1..], t);
      if order[0] in t then [order[0] + "=" + ValueText(t[order[0]])] + rest else rest
  }

  predicate IsCpu(device: string) { |device| >= 3 && device[..3] == "cpu" }

  function Inner(order: seq<string>, t: Tuning): string {
    if |Parts(order, t)| > 0 then Join(Parts(order, t), ';') else ""
  }

  function Bracketed(order: seq<string>, t: Tuning): string {
    if Inner(order, t) != "" then "*[" + Inner(order, t) + "]" else ""
  }

  function ProcessText(processes: nat): string {
    if processes > 1 then "^" + Decimal(processes) else ""
  }

  /** A CPU's intensity comes first, as a bare number. */
  function TuningText(order: seq<string>, device: string, t: Tuning): string {
    if !IsCpu(device) then Bracketed(order, t)
    else
      var n := Number(t, "intensity");
      (if n.Some? && n.value > 0 then "*" + Decimal(n.value) else "") + Bracketed(order, t - {"intensity"})
  }

  function FormatIn(order: seq<string>, e: Entry): string {
    e.device + (TuningText(order, e.device, e.tuning) + ProcessText(e.processes))
  }

  function FormatEach(order: seq<string>, es: seq<Entry>): (r: seq<string>)
    ensures |r| == |es| && forall i :: 0 <= i < |es| ==> r[i] == FormatIn(order, es[i])
  {
    if |es| == 0 then [] else [FormatIn(order, es[0])] + FormatEach(order, es[1..])
  }

  function FormatList(es: seq<Entry>): string
    requires |es| > 0
  {
    Join(FormatEach(FIELD_ORDER, es), ',')
  }

  // ---------- parsing ----------

  function Normalize(field: string, text: string): Option<Value> {
    if Choices(field) != {} then
      if Lower(text) in Choices(field) then Some(Word(Lower(text))) else None
    else if |text| > 0 && AllDigits(text) && IntegerOk(field, FromDecimal(text)) then Some(Num(FromDecimal(text)))
    else None
  }

  predicate AllNormalize(raw: map<string, string>) {
    forall f :: f in raw ==> Normalize(f, raw[f]).Some?
  }

  function Normalized(raw: map<string, string>): Tuning
    requires AllNormalize(raw)
  {
    map f | f in raw :: Normalize(f, raw[f]).value
  }

  function Validate(algo: string, raw: map<string, string>): Option<Tuning> {
    if raw.Keys <= AllowedFields(algo) && AllNormalize(raw) then
      var t := Normalized(raw);
      if Constraints(algo, t) then Some(t) else None
    else None
  }

  predicate NameChar(c: char) { 'a' <= c <= 'z' || IsDigit(c) || c == '_' }

  predicate IsName(s: string) { |s| > 0 && 'a' <= s[0] <= 'z' && forall i :: 0 <= i < |s| ==> NameChar(s[i]) }

  function ParseParts(parts: seq<string>, raw: map<string, string>): Option<map<string, string>> {
    if |parts| == 0 then Some(raw)
    else
      var i := IndexOf(parts[0], '=');
      if i == 0 || i >= |parts[0]| - 1 then None
      else
        var key := Lower(Trim(parts[0][..i]));
        if !IsName(key) || key in raw then None
        else ParseParts(parts[1..], raw[key := Trim(parts[0][i + 1..])])
  }

  function ParseExpanded(algo: string, text: string): Option<Tuning> {
    if text == "" then None
    else
      var raw := ParseParts(Split(text, ';'), map[]);
      if raw.None? then None else Validate(algo, raw.value)
  }

  predicate PositiveDecimal(s: string) { |s| > 0 && s[0] != '0' && AllDigits(s) }

  function ParseProcesses(rest: string): Option<nat> {
    if rest == "" then Some(1)
    else if rest[0] == '^' && PositiveDecimal(rest[1..]) && FromDecimal(rest[1..]) <= 1024 then Some(FromDecimal(rest[1..]))
    else None
  }

  /** The device at the start of a text: its length, if it is one. */
  function DeviceLength(t: string): Option<nat> {
    if |t| < 3 then None
    else
      var kind, k := Lower(t[..3]), DigitCount(t[3..]);
      if (kind == "cpu" || (kind == "gpu" && k > 0)) && FromDecimal(t[3..][..k]) <= 1023 then Some(3 + k) else None
  }

  /** The tuning behind a device, and how long its text is. */
  function ParseTuning(algo: string, device: string, r: string): Option<(Tuning, nat)> {
    if |r| >= 2 && r[0] == '*' && r[1] == '[' then
      var j := IndexOf(r, ']');
      if j == |r| then None
      else
        var t := ParseExpanded(algo, r[2..j]);
        if t.None? then None else Some((t.value, j + 1))
    else if |r| >= 2 && r[0] == '*' && '1' <= r[1] <= '9' then
      var m := DigitCount(r[1..]);
      var n, field := FromDecimal(r[1..][..m]), if IsCpu(device) then "intensity" else MainField(algo);
      if (FixedIntensity(algo) && field == "intensity" && n != 1) || !IntegerOk(field, n) then None
      else Some((map[field := Num(n)], 1 + m))
    else if |r| >= 1 && r[0] == '*' then None
    else Some((map[], 0))
  }

  /** What follows the tuning is the number of processes. */
  function FinishEntry(device: string, r: string, tuning: Option<(Tuning, nat)>): Option<Entry> {
    if tuning.None? || tuning.value.1 > |r| then None
    else
      var processes := ParseProcesses(r[tuning.value.1..]);
      if processes.None? then None else Some(Entry(device, tuning.value.0, processes.value))
  }

  function ParseEntry(text: string, algo: string): Option<Entry> {
    var t := Trim(text);
    var d := DeviceLength(t);
    if d.None? || d.value > |t| then None
    else
      var device, r := Lower(t[..d.value]), t[d.value..];
      FinishEntry(device, r, ParseTuning(algo, device, r))
  }

  function ParseEach(texts: seq<string>, algo: string): Option<seq<Entry>> {
    if |texts| == 0 then Some([])
    else
      var e, rest := ParseEntry(texts[0], algo), ParseEach(texts[1..], algo);
      if e.None? || rest.None? then None else Some([e.value] + rest.value)
  }

  function ParseList(dev: string, algo: string): Option<seq<Entry>> {
    if Trim(dev) == "" then None else ParseEach(Split(dev, ','), algo)
  }

  // ---------- the parser's loops ----------

  /** Collect the name=value parts one by one; a malformed part or a second value for a name ends it. */
  method ReadParts(parts: seq<string>) returns (raw: Option<map<string, string>>)
    ensures raw == ParseParts(parts, map[])
  {
    var found: map<string, string> := map[];
    var i := 0;
    while i < |parts|
      invariant 0 <= i <= |parts| && ParseParts(parts, map[]) == ParseParts(parts[i..], found)
    {
      var part := parts[i];
      assert parts[i..][0] == part && parts[i..][1..] == parts[i + 1..];
      var separator := IndexOf(part, '=');
      if separator == 0 || separator >= |part| - 1 {
        return None;
      }
      var key := Lower(Trim(part[..separator]));
      if !IsName(key) || key in found {
        return None;
      }
      found := found[key := Trim(part[separator + 1..])];
      i := i + 1;
    }
    raw := Some(found);
  }

  /** Normalize the fields one by one, in any order, then check what they satisfy together. */
  method ValidateFields(algo: string, raw: map<string, string>) returns (t: Option<Tuning>)
    ensures t == Validate(algo, raw)
  {
    var result: Tuning := map[];
    var left := raw.Keys;
    while left != {}
      invariant left <= raw.Keys && result.Keys == raw.Keys - left && result.Keys <= AllowedFields(algo)
      invariant forall f :: f in result ==> Normalize(f, raw[f]) == Some(result[f])
      decreases left
    {
      var f :| f in left;
      var v := Normalize(f, raw[f]);
      if f !in AllowedFields(algo) || v.None? {
        return None;
      }
      result := result[f := v.value];
      left := left - {f};
    }
    assert AllNormalize(raw) && result == Normalized(raw);
    t := if Constraints(algo, result) then Some(result) else None;
  }

  // ---------- texts without surprises ----------

  predicate NameText(s: string) { forall i :: 0 <= i < |s| ==> NameChar(s[i]) }

  predicate NoSpace(s: string) { forall i :: 0 <= i < |s| ==> !IsSpace(s[i]) }

  lemma TrimNothing(s: string)
    requires NoSpace(s)
    ensures Trim(s) == s
  {
  }

  lemma LowerNothing(s: string)
    requires NameText(s)
    ensures Lower(s) == s
  {
  }

  lemma {:induction false} FieldsAreNames(i: nat)
    requires i < |FIELD_ORDER|
    ensures IsName(FIELD_ORDER[i])
  {
  }

  lemma FieldsAreDistinct(i: nat, j: nat)
    requires i < j < |FIELD_ORDER|
    ensures FIELD_ORDER[i] != FIELD_ORDER[j]
  {
  }

  lemma AllowedAreFields(algo: string, f: string)
    requires f in AllowedFields(algo)
    ensures f in FIELD_ORDER
  {
  }

  lemma ChoicesAreNames(field: string, w: string)
    requires w in Choices(field)
    ensures |w| > 0 && NameText(w)
  {
  }

  lemma ValueTextIsName(field: string, v: Value)
    requires ValueOk(field, v)
    ensures |ValueText(v)| > 0 && NameText(ValueText(v)) && Normalize(field, ValueText(v)) == Some(v)
  {
    if v.Word? {
      ChoicesAreNames(field, v.w);
      LowerNothing(v.w);
    } else {
      DecimalRoundTrip(v.n);
    }
  }

  // ---------- the bracketed tuning ----------

  ghost predicate Names(order: seq<string>) {
    && (forall i :: 0 <= i < |order| ==> IsName(order[i]))
    && (forall i, j :: 0 <= i < j < |order| ==> order[i] != order[j])
  }

  lemma NamesTail(order: seq<string>)
    requires Names(order) && |order| > 0
    ensures Names(order[1..]) && IsName(order[0]) && order[0] !in order[1..]
  {
    forall i | 0 <= i < |order[1..]| ensures IsName(order[1..][i]) && order[1..][i] != order[0] {
      assert order[1..][i] == order[i + 1];
    }
  }

  lemma FieldOrderIsNames()
    ensures Names(FIELD_ORDER)
  {
    forall i | 0 <= i < |FIELD_ORDER| ensures IsName(FIELD_ORDER[i]) {
      FieldsAreNames(i);
    }
    forall i, j | 0 <= i < j < |FIELD_ORDER| ensures FIELD_ORDER[i] != FIELD_ORDER[j] {
      FieldsAreDistinct(i, j);
    }
  }

  /** Every value prints as a word. */
  ghost predicate WordTuning(t: Tuning) {
    forall f :: f in t ==> |ValueText(t[f])| > 0 && NameText(ValueText(t[f]))
  }

  function Texts(t: Tuning): map<string, string> {
    map f | f in t :: ValueText(t[f])
  }

  /** The texts of the fields in the given order. */
  function TextsIn(order: seq<string>, t: Tuning): map<string, string> {
    if |order| == 0 then map[]
    else
      var rest := TextsIn(order[1..], t);
      if order[0] in t then rest[order[0] := ValueText(t[order[0]])] else rest
  }

  lemma {:induction false} TextsInHas(order: seq<string>, t: Tuning, f: string)
    ensures f in TextsIn(order, t) <==> f in t && f in order
    ensures f in TextsIn(order, t) ==> TextsIn(order, t)[f] == ValueText(t[f])
  {
    if |order| > 0 {
      TextsInHas(order[1..], t, f);
      assert order == [order[0]] + order[1..];
    }
  }

  lemma TextsInAll(order: seq<string>, t: Tuning)
    requires forall f :: f in t ==> f in order
    ensures TextsIn(order, t) == Texts(t)
  {
    forall f ensures f in TextsIn(order, t) <==> f in Texts(t)
      ensures f in TextsIn(order, t) ==> TextsIn(order, t)[f] == Texts(t)[f]
    {
      TextsInHas(order, t, f);
    }
  }

  lemma NameHasNo(s: string, c: char)
    requires NameText(s) && !NameChar(c)
    ensures Lacks(s, c)
  {
  }

  lemma NameHasNoSpace(s: string)
    requires NameText(s)
    ensures NoSpace(s)
  {
  }

  /** One name=value part is read back. */
  lemma PartIsRead(name: string, value: string, rest: seq<string>, raw: map<string, string>)
    requires IsName(name) && NameText(value) && |value| > 0
    ensures ParseParts([name + "=" + value] + rest, raw) ==
      if name in raw then None else ParseParts(rest, raw[name := value])
  {
    var part := name + "=" + value;
    NameHasNo(name, '=');
    IndexAfter(name, '=', value);
    assert name + ['='] + value == part;
    assert part[..|name|] == name && part[|name| + 1..] == value;
    NameHasNoSpace(name);
    NameHasNoSpace(value);
    TrimNothing(name);
    TrimNothing(value);
    LowerNothing(name);
    var parts := [part] + rest;
    assert parts[0] == part && parts[1..] == rest;
  }

  lemma MapMove(raw: map<string, string>, rest: map<string, string>, f: string, v: string)
    requires f !in rest
    ensures raw[f := v] + rest == raw + rest[f := v]
  {
  }

  lemma {:induction false} PartsAreRead(order: seq<string>, t: Tuning, raw: map<string, string>)
    requires Names(order) && WordTuning(t) && forall f :: f in order ==> f !in raw
    ensures ParseParts(Parts(order, t), raw) == Some(raw + TextsIn(order, t))
    decreases |order|
  {
    if |order| == 0 {
      assert raw + map[] == raw;
    } else {
      var f, rest := order[0], order[1..];
      NamesTail(order);
      if f in t {
        var v := ValueText(t[f]);
        PartIsRead(f, v, Parts(rest, t), raw);
        PartsAreRead(rest, t, raw[f := v]);
        TextsInHas(rest, t, f);
        MapMove(raw, TextsIn(rest, t), f, v);
      } else {
        PartsAreRead(rest, t, raw);
      }
    }
  }

  /** Characters inside the brackets: no bracket closes early, and no part splits. */
  predicate InnerText(s: string) { Lacks(s, ']') && Lacks(s, ',') && NoSpace(s) }

  predicate CleanPart(s: string) { Lacks(s, ';') && InnerText(s) && |s| > 0 }

  lemma {:induction false} PartsAreClean(order: seq<string>, t: Tuning, k: nat)
    requires Names(order) && WordTuning(t) && k < |Parts(order, t)|
    ensures CleanPart(Parts(order, t)[k])
  {
    if |order| > 0 {
      NamesTail(order);
      if order[0] in t && k == 0 {
        PartIsClean(order[0], ValueText(t[order[0]]));
      } else {
        PartsAreClean(order[1..], t, if order[0] in t then k - 1 else k);
      }
    }
  }

  lemma PartIsClean(name: string, value: string)
    requires NameText(name) && NameText(value)
    ensures CleanPart(name + "=" + value)
  {
    var part := name + "=" + value;
    forall i | 0 <= i < |part| ensures NameChar(part[i]) || part[i] == '=' {
    }
  }

  lemma {:induction false} JoinIsInner(parts: seq<string>)
    requires |parts| > 0 && forall k :: 0 <= k < |parts| ==> CleanPart(parts[k])
    ensures InnerText(Join(parts, ';')) && |Join(parts, ';')| > 0
  {
    if |parts| > 1 {
      JoinIsInner(parts[1..]);
      InnerConcat(parts[0], [';']);
      InnerConcat(parts[0] + [';'], Join(parts[1..], ';'));
    }
  }

  lemma InnerConcat(x: string, y: string)
    requires InnerText(x) && InnerText(y)
    ensures InnerText(x + y)
  {
    var z := x + y;
    forall i | 0 <= i < |z| ensures z[i] != ']' && z[i] != ',' && !IsSpace(z[i]) {
      if i >= |x| {
        assert z[i] == y[i - |x|];
      }
    }
  }

  /** The printed parts are read back as the texts of all fields. */
  lemma JoinedIsRead(order: seq<string>, t: Tuning)
    requires Names(order) && WordTuning(t) && |Parts(order, t)| > 0 && forall f :: f in t ==> f in order
    ensures InnerText(Join(Parts(order, t), ';')) && Join(Parts(order, t), ';') != ""
    ensures ParseParts(Split(Join(Parts(order, t), ';'), ';'), map[]) == Some(Texts(t))
  {
    var parts := Parts(order, t);
    forall k | 0 <= k < |parts| ensures CleanPart(parts[k]) {
      PartsAreClean(order, t, k);
    }
    JoinIsInner(parts);
    SplitUndoesJoin(parts, ';');
    PartsAreRead(order, t, map[]);
    TextsInAll(order, t);
    assert map[] + Texts(t) == Texts(t);
  }

  ghost predicate NormalTuning(order: seq<string>, t: Tuning) {
    forall f :: f in t ==> f in order && ValueOk(f, t[f])
  }

  lemma NormalIsWords(order: seq<string>, t: Tuning)
    requires NormalTuning(order, t)
    ensures WordTuning(t)
  {
    forall f | f in t ensures |ValueText(t[f])| > 0 && NameText(ValueText(t[f])) {
      ValueTextIsName(f, t[f]);
    }
  }

  lemma TextsNormalize(t: Tuning)
    requires forall f :: f in t ==> ValueOk(f, t[f])
    ensures AllNormalize(Texts(t)) && Normalized(Texts(t)) == t
  {
    forall f | f in t ensures Normalize(f, Texts(t)[f]) == Some(t[f]) {
      ValueTextIsName(f, t[f]);
    }
  }

  lemma TextsAreValidated(algo: string, t: Tuning)
    requires forall f :: f in t ==> ValueOk(f, t[f])
    ensures Validate(algo, Texts(t)) == if ValidTuning(algo, t) then Some(t) else None
  {
    TextsNormalize(t);
    assert Texts(t).Keys == t.Keys;
  }

  lemma {:induction false} NoParts(order: seq<string>, t: Tuning)
    ensures |Parts(order, t)| == 0 <==> forall f :: f in order ==> f !in t
  {
    if |order| > 0 {
      NoParts(order[1..], t);
      assert order == [order[0]] + order[1..];
    }
  }

  /** What is printed between the brackets is accepted exactly when the tuning is valid. */
  lemma InnerIsRead(order: seq<string>, algo: string, t: Tuning)
    requires Names(order) && NormalTuning(order, t)
    ensures InnerText(Inner(order, t)) && (Inner(order, t) == "" <==> t == map[])
    ensures t != map[] ==> ParseExpanded(algo, Inner(order, t)) == if ValidTuning(algo, t) then Some(t) else None
  {
    NoParts(order, t);
    if t != map[] {
      NormalIsWords(order, t);
      JoinedIsRead(order, t);
      TextsAreValidated(algo, t);
    }
  }

  // ---------- one entry ----------

  predicate DeviceOk(d: string) {
    && |d| >= 3 && (d[..3] == "cpu" || (d[..3] == "gpu" && |d| > 3))
    && AllDigits(d[3..]) && FromDecimal(d[3..]) <= 1023
  }

  /** What a parsed entry always satisfies. */
  ghost predicate Printable(order: seq<string>, e: Entry) {
    Names(order) && DeviceOk(e.device) && 1 <= e.processes <= 1024 && NormalTuning(order, e.tuning)
  }

  /** A CPU entry with an intensity has nothing else; any other tuning is one that is accepted. */
  predicate Good(algo: string, e: Entry) {
    if IsCpu(e.device) && "intensity" in e.tuning then
      e.tuning.Keys == {"intensity"} && (FixedIntensity(algo) ==> e.tuning["intensity"] == Num(1))
    else ValidTuning(algo, e.tuning)
  }

  lemma Regroup(x: string, y: string, z: string)
    ensures x + y + z == x + (y + z)
  {
  }

  lemma TakeDrop(x: string, y: string)
    ensures (x + y)[..|x|] == x && (x + y)[|x|..] == y
  {
  }

  lemma ProcessIsRead(p: nat)
    requires 1 <= p <= 1024
    ensures ParseProcesses(ProcessText(p)) == Some(p)
  {
    if p > 1 {
      TakeDrop("^", Decimal(p));
      DecimalRoundTrip(p);
    }
  }

  predicate StopsDigits(rest: string) { |rest| > 0 ==> rest[0] == '*' || rest[0] == '^' }

  lemma DeviceIsRead(d: string, rest: string)
    requires DeviceOk(d) && StopsDigits(rest)
    ensures DeviceLength(d + rest) == Some(|d|) && Lower((d + rest)[..|d|]) == d
  {
    TakeDrop(d, rest);
    var t := d + rest;
    assert t[..3] == d[..3] && t[3..] == d[3..] + rest;
    DigitsThenRest(d[3..], rest);
    TakeDrop(d[3..], rest);
    DeviceIsLower(d);
    assert Lower(d[..3]) == d[..3];
  }

  lemma DeviceIsLower(d: string)
    requires DeviceOk(d)
    ensures Lower(d) == d && NoSpace(d) && Lacks(d, ',')
  {
    forall i | 0 <= i < |d| ensures NameChar(d[i]) {
      if i < 3 {
        assert d[i] == d[..3][i];
      } else {
        assert d[i] == d[3..][i - 3];
      }
    }
    NameHasNo(d, ',');
  }

  lemma BracketsAreRead(order: seq<string>, algo: string, device: string, t: Tuning, rest: string)
    requires Names(order) && NormalTuning(order, t) && t != map[]
    ensures |Bracketed(order, t)| > 0 && Bracketed(order, t)[0] == '*'
    ensures ParseTuning(algo, device, Bracketed(order, t) + rest) ==
      if ValidTuning(algo, t) then Some((t, |Bracketed(order, t)|)) else None
  {
    InnerIsRead(order, algo, t);
    BracketsAround(algo, device, Inner(order, t), Bracketed(order, t), rest, if ValidTuning(algo, t) then Some(t) else None);
  }

  lemma BracketsAround(algo: string, device: string, inner: string, text: string, rest: string, t: Option<Tuning>)
    requires Lacks(inner, ']') && text == "*[" + inner + "]" && ParseExpanded(algo, inner) == t
    ensures |text| > 0 && text[0] == '*'
    ensures ParseTuning(algo, device, text + rest) == if t.None? then None else Some((t.value, |text|))
  {
    var r := text + rest;
    assert r[0] == '*' && r[1] == '[';
    IndexAfter("*[" + inner, ']', rest);
    assert "*[" + inner + [']'] + rest == r;
    assert r[2..|inner| + 2] == inner;
  }

  /** The field that a bare number is for. */
  function BareField(algo: string, device: string): string {
    if IsCpu(device) then "intensity" else MainField(algo)
  }

  predicate BareOk(algo: string, device: string, n: nat) {
    var field := BareField(algo, device);
    IntegerOk(field, n) && (FixedIntensity(algo) && field == "intensity" ==> n == 1)
  }

  lemma MainIsRead(algo: string, device: string, n: nat, rest: string)
    requires n > 0 && StopsDigits(rest)
    ensures ParseTuning(algo, device, "*" + Decimal(n) + rest) ==
      if BareOk(algo, device, n) then Some((map[BareField(algo, device) := Num(n)], 1 + |Decimal(n)|)) else None
  {
    DecimalRoundTrip(n);
    StarDigits(Decimal(n), rest);
  }

  lemma StarDigits(d: string, rest: string)
    requires PositiveDecimal(d) && StopsDigits(rest)
    ensures var r := "*" + d + rest;
      |r| >= 2 && r[0] == '*' && '1' <= r[1] <= '9' && DigitCount(r[1..]) == |d| && r[1..][..|d|] == d
  {
    var r := "*" + d + rest;
    assert r[1..] == d + rest && r[1] == d[0];
    DigitsThenRest(d, rest);
    TakeDrop(d, rest);
  }

  lemma {:induction false} TrimStartNothing(s: string)
    requires |s| > 0 && !IsSpace(s[0])
    ensures Trim(s) != ""
  {
    TrimEndKeepsFirst(s);
  }

  lemma {:induction false} TrimEndKeepsFirst(s: string)
    requires |s| > 0 && !IsSpace(s[0])
    ensures TrimEnd(s) != ""
  {
    if IsSpace(s[|s| - 1]) {
      TrimEndKeepsFirst(s[..|s| - 1]);
    }
  }

  predicate Compact(s: string) { NoSpace(s) && Lacks(s, ',') }

  lemma CompactConcat(x: string, y: string)
    requires Compact(x) && Compact(y)
    ensures Compact(x + y)
  {
    var z := x + y;
    forall i | 0 <= i < |z| ensures z[i] != ',' && !IsSpace(z[i]) {
      if i >= |x| {
        assert z[i] == y[i - |x|];
      }
    }
  }

  lemma BracketedIsCompact(order: seq<string>, t: Tuning)
    requires Names(order) && NormalTuning(order, t)
    ensures Compact(Bracketed(order, t)) && StopsDigits(Bracketed(order, t))
    ensures t == map[] ==> Bracketed(order, t) == ""
  {
    InnerIsRead(order, "", t);
    CompactConcat("*[", Inner(order, t));
    CompactConcat("*[" + Inner(order, t), "]");
  }

  lemma TuningIsCompact(order: seq<string>, device: string, t: Tuning)
    requires Names(order) && NormalTuning(order, t)
    ensures Compact(TuningText(order, device, t)) && StopsDigits(TuningText(order, device, t))
  {
    var n, others := Number(t, "intensity"), t - {"intensity"};
    BracketedIsCompact(order, t);
    BracketedIsCompact(order, others);
    if n.Some? {
      CompactConcat("*", Decimal(n.value));
      CompactConcat("*" + Decimal(n.value), Bracketed(order, others));
    }
    assert "" + Bracketed(order, others) == Bracketed(order, others);
  }

  lemma EntryIsCompact(order: seq<string>, e: Entry)
    requires Printable(order, e)
    ensures Compact(FormatIn(order, e))
    ensures StopsDigits(TuningText(order, e.device, e.tuning) + ProcessText(e.processes))
  {
    TuningIsCompact(order, e.device, e.tuning);
    CompactConcat("^", Decimal(e.processes));
    CompactConcat(TuningText(order, e.device, e.tuning), ProcessText(e.processes));
    DeviceIsLower(e.device);
    CompactConcat(e.device, TuningText(order, e.device, e.tuning) + ProcessText(e.processes));
  }

  lemma OnlyIntensity(t: Tuning)
    requires "intensity" in t && t - {"intensity"} == map[]
    ensures t.Keys == {"intensity"} && t == map["intensity" := t["intensity"]]
  {
    assert forall f :: f in t && f != "intensity" ==> f in t - {"intensity"};
  }

  lemma EmptyIsValid(algo: string)
    ensures ValidTuning(algo, map[])
  {
  }

  /** The bracketed tuning is read back, with its length, exactly when it is valid. */
  lemma PlainTuningIsRead(order: seq<string>, algo: string, device: string, t: Tuning, p: nat)
    requires Names(order) && NormalTuning(order, t)
    ensures ParseTuning(algo, device, Bracketed(order, t) + ProcessText(p)) ==
      if ValidTuning(algo, t) then Some((t, |Bracketed(order, t)|)) else None
  {
    if t == map[] {
      BracketedIsCompact(order, t);
      assert "" + ProcessText(p) == ProcessText(p);
      EmptyIsValid(algo);
    } else {
      BracketsAreRead(order, algo, device, t, ProcessText(p));
    }
  }

  /** A CPU's intensity is read back; more tuning behind it is not read. */
  lemma CpuTuningIsRead(order: seq<string>, algo: string, device: string, t: Tuning, p: nat)
    requires Names(order) && NormalTuning(order, t) && IsCpu(device) && "intensity" in t
    ensures t["intensity"].Num? && t["intensity"].n > 0
    ensures var text := TuningText(order, device, t);
      var n, r := t["intensity"].n, ParseTuning(algo, device, text + ProcessText(p));
      && r == (if FixedIntensity(algo) && n != 1 then None
               else Some((map["intensity" := Num(n)], 1 + |Decimal(n)|)))
      && (t - {"intensity"} == map[] ==> |text| == 1 + |Decimal(n)|)
      && (t - {"intensity"} != map[] ==> |text| > 1 + |Decimal(n)| && text[1 + |Decimal(n)|] == '*')
  {
    var n, others := t["intensity"].n, t - {"intensity"};
    var main, brackets := "*" + Decimal(n), Bracketed(order, others);
    BracketedIsCompact(order, others);
    Regroup(main, brackets, ProcessText(p));
    assert StopsDigits(brackets + ProcessText(p));
    MainIsRead(algo, device, n, brackets + ProcessText(p));
    if others != map[] {
      BracketsAreRead(order, algo, device, others, "");
      TakeDrop(main, brackets);
      assert (main + brackets)[|main|] == brackets[0];
    }
  }

  /** A device with a bare number is that device with the number in its main field, if the number is
      good for it, and is refused otherwise. */
  lemma BareNumberIsRead(algo: string, device: string, n: nat, p: nat)
    requires DeviceOk(device) && n > 0 && 1 <= p <= 1024
    ensures ParseEntry(device + ("*" + Decimal(n) + ProcessText(p)), algo) ==
      if BareOk(algo, device, n) then Some(Entry(device, map[BareField(algo, device) := Num(n)], p)) else None
  {
    var main := "*" + Decimal(n);
    var r := main + ProcessText(p);
    CompactConcat("*", Decimal(n));
    CompactConcat("^", Decimal(p));
    CompactConcat(main, ProcessText(p));
    DeviceIsLower(device);
    CompactConcat(device, r);
    TrimNothing(device + r);
    DeviceIsRead(device, r);
    TakeDrop(device, r);
    MainIsRead(algo, device, n, ProcessText(p));
    FinishWhole(device, main, map[BareField(algo, device) := Num(n)], p);
  }

  /** The main field of an algorithm is the first, in the order of printing, of the fields it has. */
  lemma MainFieldIsFirst(algo: string, i: nat)
    requires AllowedFields(algo) != {} && i < |FIELD_ORDER| && FIELD_ORDER[i] in AllowedFields(algo)
    ensures MainField(algo) in AllowedFields(algo)
    ensures exists j: nat :: j <= i && FIELD_ORDER[j] == MainField(algo)
  {
    assert FIELD_ORDER[0] == "intensity" && FIELD_ORDER[1] == "seed_workgroup" && FIELD_ORDER[2] == "m"
      && FIELD_ORDER[3] == "slots" && FIELD_ORDER[4] == "workgroup";
  }

  lemma DeviceComesOff(order: seq<string>, algo: string, e: Entry)
    requires Printable(order, e)
    ensures var r := TuningText(order, e.device, e.tuning) + ProcessText(e.processes);
      ParseEntry(FormatIn(order, e), algo) == FinishEntry(e.device, r, ParseTuning(algo, e.device, r))
  {
    var r := TuningText(order, e.device, e.tuning) + ProcessText(e.processes);
    EntryIsCompact(order, e);
    TrimNothing(FormatIn(order, e));
    DeviceIsRead(e.device, r);
    TakeDrop(e.device, r);
  }

  lemma FinishWhole(device: string, text: string, t: Tuning, p: nat)
    requires 1 <= p <= 1024
    ensures FinishEntry(device, text + ProcessText(p), Some((t, |text|))) == Some(Entry(device, t, p))
  {
    TakeDrop(text, ProcessText(p));
    ProcessIsRead(p);
  }

  lemma FinishEarly(device: string, text: string, t: Tuning, k: nat, rest: string)
    requires k < |text| && text[k] == '*'
    ensures FinishEntry(device, text + rest, Some((t, k))) == None
  {
    assert (text + rest)[k..][0] == '*';
  }

  lemma PlainEntryRoundTrip(order: seq<string>, algo: string, e: Entry)
    requires Printable(order, e) && !(IsCpu(e.device) && "intensity" in e.tuning)
    ensures var r := TuningText(order, e.device, e.tuning) + ProcessText(e.processes);
      FinishEntry(e.device, r, ParseTuning(algo, e.device, r)) == if Good(algo, e) then Some(e) else None
  {
    NoIntensity(order, e);
    PlainTuningIsRead(order, algo, e.device, e.tuning, e.processes);
    FinishWhole(e.device, Bracketed(order, e.tuning), e.tuning, e.processes);
  }

  lemma CpuEntryRoundTrip(order: seq<string>, algo: string, e: Entry)
    requires Printable(order, e) && IsCpu(e.device) && "intensity" in e.tuning
    ensures var r := TuningText(order, e.device, e.tuning) + ProcessText(e.processes);
      FinishEntry(e.device, r, ParseTuning(algo, e.device, r)) == if Good(algo, e) then Some(e) else None
  {
    var text := TuningText(order, e.device, e.tuning);
    CpuTuningIsRead(order, algo, e.device, e.tuning, e.processes);
    var n := e.tuning["intensity"].n;
    var main: Tuning := map["intensity" := Num(n)];
    if e.tuning - {"intensity"} == map[] {
      OnlyIntensity(e.tuning);
      FinishWhole(e.device, text, main, e.processes);
    } else {
      NotOnlyIntensity(e.tuning);
      FinishEarly(e.device, text, main, 1 + |Decimal(n)|, ProcessText(e.processes));
    }
  }

  lemma NotOnlyIntensity(t: Tuning)
    ensures t.Keys == {"intensity"} ==> t - {"intensity"} == map[]
  {
  }

  /** A printed entry is read back exactly when it is good. */
  lemma EntryRoundTrip(order: seq<string>, algo: string, e: Entry)
    requires Printable(order, e)
    ensures ParseEntry(FormatIn(order, e), algo) == if Good(algo, e) then Some(e) else None
  {
    DeviceComesOff(order, algo, e);
    if IsCpu(e.device) && "intensity" in e.tuning {
      CpuEntryRoundTrip(order, algo, e);
    } else {
      PlainEntryRoundTrip(order, algo, e);
    }
  }

  lemma NoIntensity(order: seq<string>, e: Entry)
    requires !(IsCpu(e.device) && "intensity" in e.tuning)
    ensures TuningText(order, e.device, e.tuning) == Bracketed(order, e.tuning)
  {
    if IsCpu(e.device) {
      assert e.tuning - {"intensity"} == e.tuning;
    }
  }

  // ---------- whole lists ----------

  ghost predicate AllPrintable(order: seq<string>, es: seq<Entry>) {
    forall i :: 0 <= i < |es| ==> Printable(order, es[i])
  }

  predicate AllGood(algo: string, es: seq<Entry>) {
    forall i :: 0 <= i < |es| ==> Good(algo, es[i])
  }

  lemma {:induction false} EachRoundTrip(order: seq<string>, algo: string, es: seq<Entry>)
    requires AllPrintable(order, es)
    ensures ParseEach(FormatEach(order, es), algo) == if AllGood(algo, es) then Some(es) else None
  {
    if |es| > 0 {
      EachRoundTrip(order, algo, es[1..]);
      EntryRoundTrip(order, algo, es[0]);
      ParseFirst(FormatIn(order, es[0]), FormatEach(order, es[1..]), algo, es[0], es[1..],
                 Good(algo, es[0]), AllGood(algo, es[1..]));
      FirstAndRest(es);
      GoodSplits(algo, es);
    }
  }

  lemma FirstAndRest(es: seq<Entry>)
    requires |es| > 0
    ensures es == [es[0]] + es[1..]
  {
  }

  lemma ParseFirst(text: string, texts: seq<string>, algo: string, e: Entry, es: seq<Entry>, good: bool, allGood: bool)
    requires ParseEntry(text, algo) == (if good then Some(e) else None)
    requires ParseEach(texts, algo) == (if allGood then Some(es) else None)
    ensures ParseEach([text] + texts, algo) == if good && allGood then Some([e] + es) else None
  {
    assert ([text] + texts)[1..] == texts;
  }

  lemma GoodSplits(algo: string, es: seq<Entry>)
    requires |es| > 0
    ensures AllGood(algo, es) <==> Good(algo, es[0]) && AllGood(algo, es[1..])
  {
    if Good(algo, es[0]) && AllGood(algo, es[1..]) {
      forall i | 0 <= i < |es| ensures Good(algo, es[i]) {
        assert i > 0 ==> es[i] == es[1..][i - 1];
      }
    }
  }

  lemma JoinStarts(parts: seq<string>, c: char)
    requires |parts| > 0 && |parts[0]| > 0
    ensures |Join(parts, c)| > 0 && Join(parts, c)[0] == parts[0][0]
  {
  }

  lemma ListRoundTripIn(order: seq<string>, algo: string, es: seq<Entry>)
    requires |es| > 0 && AllPrintable(order, es)
    ensures ParseList(Join(FormatEach(order, es), ','), algo) == if AllGood(algo, es) then Some(es) else None
  {
    var texts := FormatEach(order, es);
    forall i | 0 <= i < |texts| ensures Lacks(texts[i], ',') {
      EntryIsCompact(order, es[i]);
    }
    SplitUndoesJoin(texts, ',');
    EntryIsCompact(order, es[0]);
    assert texts[0][0] == es[0].device[0];
    JoinStarts(texts, ',');
    TrimStartNothing(Join(texts, ','));
    EachRoundTrip(order, algo, es);
  }

  /** A printed list is read back as the same entries exactly when every entry is good; otherwise it
      is refused. */
  lemma ListRoundTrip(algo: string, es: seq<Entry>)
    requires |es| > 0 && AllPrintable(FIELD_ORDER, es)
    ensures ParseList(FormatList(es), algo) == if AllGood(algo, es) then Some(es) else None
  {
    ListRoundTripIn(FIELD_ORDER, algo, es);
  }

  /** A CPU entry that mixes an intensity with another field. */
  const MIXED := Entry("cpu", map["intensity" := Num(2), "workgroup" := Num(64)], 1)

  lemma MixedIsPrintable(order: seq<string>, algo: string)
    requires Names(order) && "intensity" in order && "workgroup" in order
    ensures Printable(order, MIXED) && !Good(algo, MIXED)
  {
    assert "workgroup" in MIXED.tuning.Keys;
  }

  /** It is printed, and for no algorithm is what is printed read back. */
  lemma MixedEntryIsRefused(algo: string)
    ensures AllPrintable(FIELD_ORDER, [MIXED]) && ParseList(FormatList([MIXED]), algo).None?
  {
    FieldOrderIsNames();
    assert FIELD_ORDER[0] == "intensity" && FIELD_ORDER[4] == "workgroup";
    MixedIsPrintable(FIELD_ORDER, algo);
    ListRoundTrip(algo, [MIXED]);
    assert [MIXED][0] == MIXED;
  }

  /** No two lists of good entries print alike. */
  lemma PrintingIsInjective(algo: string, es: seq<Entry>, es': seq<Entry>)
    requires |es| > 0 && AllPrintable(FIELD_ORDER, es) && AllGood(algo, es)
    requires |es'| > 0 && AllPrintable(FIELD_ORDER, es') && AllGood(algo, es')
    requires FormatList(es) == FormatList(es')
    ensures es == es'
  {
    ListRoundTrip(algo, es);
    ListRoundTrip(algo, es');
  }

  // ---------- whatever was parsed can be printed ----------

  lemma LowerDigits(s: string)
    requires AllDigits(s)
    ensures Lower(s) == s
  {
  }

  lemma ParsedDevice(t: string)
    requires DeviceLength(t).Some?
    ensures DeviceLength(t).value <= |t| && DeviceOk(Lower(t[..DeviceLength(t).value]))
  {
    var k := DigitCount(t[3..]);
    var d := t[..3 + k];
    var l := Lower(d);
    assert t[3..][..k] == d[3..];
    LowerDigits(d[3..]);
    assert l[3..] == Lower(d[3..]) && l[..3] == Lower(d[..3]) && d[..3] == t[..3];
  }

  lemma MainFieldIsNumber(algo: string)
    ensures MainField(algo) in FIELD_ORDER && "intensity" in FIELD_ORDER
    ensures Choices(MainField(algo)) == {} && Choices("intensity") == {}
  {
  }

  lemma ValidIsNormal(algo: string, t: Tuning)
    requires ValidTuning(algo, t)
    ensures NormalTuning(FIELD_ORDER, t)
  {
    forall f | f in t ensures f in FIELD_ORDER {
      AllowedAreFields(algo, f);
    }
  }

  lemma ValidatedIsValid(algo: string, raw: map<string, string>)
    ensures Validate(algo, raw).Some? ==> ValidTuning(algo, Validate(algo, raw).value)
  {
    if Validate(algo, raw).Some? {
      forall f | f in raw ensures ValueOk(f, Normalized(raw)[f]) {
        assert Normalize(f, raw[f]).Some?;
      }
      assert Normalized(raw).Keys == raw.Keys;
    }
  }

  lemma ParsedTuning(algo: string, device: string, r: string)
    requires ParseTuning(algo, device, r).Some?
    ensures NormalTuning(FIELD_ORDER, ParseTuning(algo, device, r).value.0)
  {
    var t := ParseTuning(algo, device, r).value.0;
    if |r| >= 2 && r[0] == '*' && r[1] == '[' {
      var inner := r[2..IndexOf(r, ']')];
      ValidatedIsValid(algo, ParseParts(Split(inner, ';'), map[]).value);
      ValidIsNormal(algo, t);
    } else {
      MainFieldIsNumber(algo);
    }
  }

  lemma ParsedIsPrintable(text: string, algo: string)
    requires ParseEntry(text, algo).Some?
    ensures Printable(FIELD_ORDER, ParseEntry(text, algo).value)
  {
    var t := Trim(text);
    ParsedDevice(t);
    var d := DeviceLength(t).value;
    ParsedTuning(algo, Lower(t[..d]), t[d..]);
    FieldOrderIsNames();
    ProcessesArePositive(t[d..][ParseTuning(algo, Lower(t[..d]), t[d..]).value.1..]);
  }

  lemma ProcessesArePositive(rest: string)
    ensures ParseProcesses(rest).Some? ==> 1 <= ParseProcesses(rest).value <= 1024
  {
    if ParseProcesses(rest).Some? && rest != "" {
      LeadingDigitCounts(rest[1..]);
    }
  }

  lemma {:induction false} LeadingDigitCounts(s: string)
    requires PositiveDecimal(s)
    ensures FromDecimal(s) >= 1
  {
    if |s| > 1 {
      LeadingDigitCounts(s[..|s| - 1]);
    }
  }

  lemma {:induction false} ParsedListIsPrintable(texts: seq<string>, algo: string)
    requires ParseEach(texts, algo).Some?
    ensures |ParseEach(texts, algo).value| == |texts| && AllPrintable(FIELD_ORDER, ParseEach(texts, algo).value)
  {
    if |texts| > 0 {
      ParsedListIsPrintable(texts[1..], algo);
      ParsedIsPrintable(texts[0], algo);
      PrintableAppend(FIELD_ORDER, ParseEntry(texts[0], algo).value, ParseEach(texts[1..], algo).value);
    }
  }

  lemma PrintableAppend(order: seq<string>, e: Entry, es: seq<Entry>)
    requires Printable(order, e) && AllPrintable(order, es)
    ensures AllPrintable(order, [e] + es)
  {
  }

  /** Printing what was parsed and parsing it again gives the same entries exactly when no CPU entry
      mixes an intensity with other fields and every other tuning is valid as a whole. */
  lemma ParsedRoundTrip(text: string, algo: string)
    requires ParseList(text, algo).Some?
    ensures var es := ParseList(text, algo).value;
      |es| > 0 && ParseList(FormatList(es), algo) == if AllGood(algo, es) then Some(es) else None
  {
    ParsedListIsPrintable(Split(text, ','), algo);
    ListRoundTrip(algo, ParseList(text, algo).value);
  }

  // ---------- what a reader may write differently ----------

  predicate Blank(s: string) { forall i :: 0 <= i < |s| ==> IsSpace(s[i]) }

  lemma {:induction false} TrimStartBlank(b: string, s: string)
    requires Blank(b)
    ensures TrimStart(b + s) == TrimStart(s)
  {
    if |b| == 0 {
      assert b + s == s;
    } else {
      TrimStartBlank(b[1..], s);
      assert (b + s)[1..] == b[1..] + s;
    }
  }

  lemma {:induction false} TrimEndBlank(s: string, b: string)
    requires Blank(b)
    ensures TrimEnd(s + b) == TrimEnd(s)
  {
    if |b| == 0 {
      assert s + b == s;
    } else {
      var n := |b| - 1;
      TrimEndBlank(s, b[..n]);
      assert (s + b)[..|s + b| - 1] == s + b[..n];
      assert (s + b)[|s + b| - 1] == b[n];
    }
  }

  /** Blanks around a word come off. */
  lemma TrimBlanks(a: string, s: string, b: string)
    requires Blank(a) && Blank(b) && NoSpace(s) && |s| > 0
    ensures Trim(a + s + b) == s
  {
    TrimStartBlank(a, s + b);
    assert a + s + b == a + (s + b);
    assert TrimStart(s + b) == s + b;
    TrimEndBlank(s, b);
    TrimNothing(s);
    assert TrimStart(s) == s;
  }

  /** Blanks around a name and its value do not matter. */
  lemma BlanksDoNotMatter(a: string, name: string, b: string, c: string, value: string, d: string)
    requires Blank(a) && Blank(b) && Blank(c) && Blank(d) && IsName(name) && NoSpace(value) && |value| > 0
    ensures ParseParts([a + name + b + "=" + (c + value + d)], map[]) == Some(map[name := value])
  {
    var key, text := a + name + b, c + value + d;
    var part := key + "=" + text;
    KeyLacksSign(a, name, b);
    IndexAfter(key, '=', text);
    assert part == key + ['='] + text;
    assert part[..|key|] == key && part[|key| + 1..] == text;
    NameHasNoSpace(name);
    TrimBlanks(a, name, b);
    TrimBlanks(c, value, d);
    LowerNothing(name);
    assert [part][1..] == [];
  }

  lemma KeyLacksSign(a: string, name: string, b: string)
    requires Blank(a) && Blank(b) && IsName(name)
    ensures Lacks(a + name + b, '=')
  {
    var key := a + name + b;
    forall i | 0 <= i < |key| ensures key[i] != '=' {
      if i < |a| {
        assert key[i] == a[i];
      } else if i < |a| + |name| {
        assert key[i] == name[i - |a|];
      } else {
        assert key[i] == b[i - |a| - |name|];
      }
    }
  }
}
