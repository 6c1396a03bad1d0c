/** The license status the server reports: whether a license is installed, its
    type, and the limits and features read from the license's attribute map. */
module Commercial {
  import Wrappers

  newtype int32 = x: int | -0x8000_0000 <= x < 0x8000_0000

  /** A DateTime, by its tick count. */
  datatype DateTime = DateTime(ticks: int)

  /** A boxed attribute value; only the kinds the getters test for are told apart. */
  datatype AttributeValue =
    | IntValue(i: int32)
    | LongValue(l: int)
    | BoolValue(b: bool)
    | DateValue(d: DateTime)
    | TextValue(s: string)
    | NullValue

  /** `Dictionary<string, object>` or null. */
  type Attributes = Wrappers.Option<map<string, AttributeValue>>

  datatype LicenseStatus = LicenseStatus(Error: bool, Attributes: Attributes, Message: string)

  /** LicenseType is an int-backed enum: a value of it is its code. */
  type LicenseType = int32

  /** The codes of the three members the getter names, and every code the enum
      defines (Enum.IsDefined). */
  datatype LicenseTypes = LicenseTypes(Invalid: LicenseType, None: LicenseType, Free: LicenseType, Defined: set<LicenseType>)
  {
    predicate Valid() { Invalid in Defined && None in Defined && Free in Defined }
  }

  datatype ArithmeticError = DivideByZeroException | OverflowException

  function New(): (s: LicenseStatus)
    ensures s.Message == "No installed license"
    ensures !s.Error && s.Attributes.None?
  {
    LicenseStatus(false, Wrappers.None, "No installed license")
  }

  function Status(s: LicenseStatus): (r: string)
    ensures r == "AGPL - Open Source" <==> s.Attributes.None?
    ensures r == "Commercial" <==> s.Attributes.Some?
  {
    if s.Attributes.None? then "AGPL - Open Source" else "Commercial"
  }

  /** The attribute stored under `name`, if the map exists and has the key. */
  function Lookup(s: LicenseStatus, name: string): (r: Wrappers.Option<AttributeValue>)
    ensures r.Some? <==> s.Attributes.Some? && name in s.Attributes.value
    ensures r.Some? ==> r.value == s.Attributes.value[name]
  {
    if s.Attributes.None? then Wrappers.None
    else if name !in s.Attributes.value then Wrappers.None
    else Wrappers.Some(s.Attributes.value[name])
  }

  /** GetValue<int?>: the value when it is a boxed int, null otherwise. */
  function GetInt(s: LicenseStatus, name: string): (r: Wrappers.Option<int32>)
    ensures r.Some? <==> Lookup(s, name).Some? && Lookup(s, name).value.IntValue?
    ensures r.Some? ==> s.Attributes.value[name] == IntValue(r.value)
  {
    match Lookup(s, name)
    case Some(IntValue(i)) => Wrappers.Some(i)
    case _ => Wrappers.None
  }

  /** GetValue<bool>: the value when it is a boxed bool, false otherwise. */
  function GetBool(s: LicenseStatus, name: string): (r: bool)
    ensures r <==> s.Attributes.Some? && name in s.Attributes.value && s.Attributes.value[name] == BoolValue(true)
  {
    match Lookup(s, name)
    case Some(BoolValue(b)) => b
    case _ => false
  }

  /** GetValue<DateTime?>: the value when it is a boxed DateTime, null otherwise. */
  function GetDate(s: LicenseStatus, name: string): (r: Wrappers.Option<DateTime>)
    ensures r.Some? <==> Lookup(s, name).Some? && Lookup(s, name).value.DateValue?
    ensures r.Some? ==> s.Attributes.value[name] == DateValue(r.value)
  {
    match Lookup(s, name)
    case Some(DateValue(d)) => Wrappers.Some(d)
    case _ => Wrappers.None
  }

  /** The license type.  A "type" attribute holding a defined code is cast to the
      enum, so it may well name Invalid, None or Free itself. */
  function Type(s: LicenseStatus, types: LicenseTypes): (r: LicenseType)
    ensures s.Error ==> r == types.Invalid
    ensures !s.Error && s.Attributes.None? ==> r == types.None
    ensures !s.Error && s.Attributes.Some? && "type" in s.Attributes.value
            && s.Attributes.value["type"].IntValue? && s.Attributes.value["type"].i in types.Defined ==>
              r == s.Attributes.value["type"].i
    ensures !s.Error && s.Attributes.Some?
            && !("type" in s.Attributes.value && s.Attributes.value["type"].IntValue?
                 && s.Attributes.value["type"].i in types.Defined) ==>
              r == types.Free
    // the getter always answers with a member of the enum
    ensures types.Valid() ==> r in types.Defined
  {
    if s.Error then types.Invalid
    else if s.Attributes.None? then types.None
    else match GetInt(s, "type")
      case Some(code) => if code in types.Defined then code else types.Free
      case None => types.Free
  }

  function Expiration(s: LicenseStatus): (r: Wrappers.Option<DateTime>)
    ensures r.Some? <==> s.Attributes.Some? && "expiration" in s.Attributes.value
                         && s.Attributes.value["expiration"].DateValue?
  {
    GetDate(s, "expiration")
  }

  /** An int attribute, or `default` when it is missing or not an int. */
  function IntOr(s: LicenseStatus, name: string, default: int32): (r: int32)
    ensures GetInt(s, name).None? ==> r == default
    ensures GetInt(s, name).Some? ==> s.Attributes.value[name] == IntValue(r)
  {
    match GetInt(s, name)
    case Some(v) => v
    case None => default
  }

  /** Whether the attribute map holds an int under `name`. */
  predicate HasInt(s: LicenseStatus, name: string)
  {
    s.Attributes.Some? && name in s.Attributes.value && s.Attributes.value[name].IntValue?
  }

  function MaxCores(s: LicenseStatus): (r: int32)
    ensures HasInt(s, "cores") ==> r == s.Attributes.value["cores"].i
    ensures !HasInt(s, "cores") ==> r == 3
  {
    IntOr(s, "cores", 3)
  }

  function MaxMemory(s: LicenseStatus): (r: int32)
    ensures HasInt(s, "memory") ==> r == s.Attributes.value["memory"].i
    ensures !HasInt(s, "memory") ==> r == 6
  {
    IntOr(s, "memory", 6)
  }

  function MaxClusterSize(s: LicenseStatus): (r: int32)
    ensures HasInt(s, "maxClusterSize") ==> r == s.Attributes.value["maxClusterSize"].i
    ensures !HasInt(s, "maxClusterSize") ==> r == 3
  {
    IntOr(s, "maxClusterSize", 3)
  }

  function Abs(x: int): nat { if x < 0 then -x else x }

  /** The quotient of `a` by `b` truncated toward zero, as C# divides. */
  function TruncatedDivide(a: int, b: int): (q: int)
    requires b != 0
    ensures Abs(q) <= Abs(a)
    ensures Abs(b) >= 2 ==> 2 * Abs(q) <= Abs(a)
    ensures var rem := a - q * b; Abs(rem) < Abs(b) && (rem == 0 || (rem < 0 <==> a < 0))
  {
    var m: int := Abs(a) / Abs(b);
    TruncatedRemainder(a, b, m);
    if (a < 0) != (b < 0) then -m else m
  }

  /** The remainder left by the truncated quotient is smaller than the divisor and
      has the sign of the dividend. */
  lemma TruncatedRemainder(a: int, b: int, m: int)
    requires b != 0 && m == Abs(a) / Abs(b)
    ensures 0 <= m <= Abs(a)
    ensures Abs(b) >= 2 ==> 2 * m <= Abs(a)
    ensures var q := if (a < 0) != (b < 0) then -m else m;
            var rem := a - q * b;
            Abs(rem) < Abs(b) && (rem == 0 || (rem < 0 <==> a < 0))
  {
    var x: int, y: int := Abs(a), Abs(b);
    var r := x % y;
    assert x == m * y + r && 0 <= r < y;
    QuotientBounds(x, y, m, r);
    SignedRemainder(a, b, m, r);
  }

  /** With |a| = m * |b| + r, the truncated quotient leaves exactly r, signed like a. */
  lemma SignedRemainder(a: int, b: int, m: int, r: int)
    requires b != 0 && Abs(a) == m * Abs(b) + r && 0 <= r < Abs(b)
    ensures var q := if (a < 0) != (b < 0) then -m else m;
            a - q * b == (if a < 0 then -r else r)
  {
    var y: int := Abs(b);
    var q := if (a < 0) != (b < 0) then -m else m;
    var p := m * y;
    assert q * b == (if a < 0 then -p else p) by {
      if a < 0 && b < 0 { assert q * b == m * -y; }
      else if a < 0 { assert q * b == -m * y; }
      else if b < 0 { assert q * b == -m * -y; }
    }
  }

  lemma QuotientBounds(x: nat, y: nat, m: int, r: int)
    requires y >= 1 && x == m * y + r && 0 <= r < y
    ensures 0 <= m <= x
    ensures y >= 2 ==> 2 * m <= x
  {
    assert m * y >= m;
    if y >= 2 {
      assert m * y >= 2 * m;
    }
  }

  /** C#'s `/` on int: throws on a zero divisor and on the one quotient,
      int.MinValue / -1, that does not fit in an int. */
  function IntDivide(a: int32, b: int32): (r: Wrappers.Result<int32, ArithmeticError>)
    ensures r.Failure? <==> b == 0 || (a == -0x8000_0000 && b == -1)
    ensures r == Wrappers.Failure(DivideByZeroException) <==> b == 0
    ensures r.Success? ==> r.value as int == TruncatedDivide(a as int, b as int)
  {
    if b == 0 then Wrappers.Failure(DivideByZeroException)
    else if a == -0x8000_0000 && b == -1 then Wrappers.Failure(OverflowException)
    else
      var q := TruncatedDivide(a as int, b as int);
      assert q != 0x8000_0000 by {
        if Abs(b as int) == 1 {
          assert q == (if b < 0 then -(a as int) else a as int);
        }
      }
      Wrappers.Success(q as int32)
  }

  /** Memory per core: throws for zero cores, and for int.MinValue memory over -1 cores. */
  function Ratio(s: LicenseStatus): (r: Wrappers.Result<int32, ArithmeticError>)
    ensures r == Wrappers.Failure(DivideByZeroException) <==> MaxCores(s) == 0
    ensures r == Wrappers.Failure(OverflowException) <==> MaxMemory(s) == -0x8000_0000 && MaxCores(s) == -1
    ensures r.Success? ==> r.value as int == TruncatedDivide(MaxMemory(s) as int, MaxCores(s) as int)
  {
    IntDivide(MaxMemory(s), MaxCores(s))
  }

  /** Without the attributes, the limits are the defaults: 3 cores, 6 GB, a cluster
      of 3, and a memory-to-cores ratio of 2. */
  lemma Defaults(s: LicenseStatus)
    requires GetInt(s, "cores").None? && GetInt(s, "memory").None? && GetInt(s, "maxClusterSize").None?
    ensures MaxCores(s) == 3 && MaxMemory(s) == 6 && MaxClusterSize(s) == 3
    ensures Ratio(s) == Wrappers.Success(2)
  {
  }

  /** A license with the cores attribute set to 0 cannot report a ratio. */
  lemma ZeroCoresHasNoRatio(s: LicenseStatus)
    requires GetInt(s, "cores") == Wrappers.Some(0)
    ensures Ratio(s) == Wrappers.Failure(DivideByZeroException)
  {
  }

  /** The boolean feature flags of a license. */
  datatype Feature =
    | DistributedCluster
    | HasCloudBackups
    | HasSnapshotBackups
    | HasDynamicNodesDistribution
    | HasEncryption
    | HasExternalReplication
    | HasDelayedExternalReplication
    | HasRavenEtl
    | HasSqlEtl

  /** The attribute each flag is read from. */
  function AttributeName(f: Feature): string
  {
    match f
    case DistributedCluster => "distributedCluster"
    case HasCloudBackups => "cloudBackup"
    case HasSnapshotBackups => "snapshotBackup"
    case HasDynamicNodesDistribution => "dynamicNodesDistribution"
    case HasEncryption => "encryption"
    case HasExternalReplication => "externalReplication"
    case HasDelayedExternalReplication => "delayedExternalReplication"
    case HasRavenEtl => "ravenEtl"
    case HasSqlEtl => "sqlEtl"
  }

  /** A feature is on exactly when its attribute is present as the boolean true. */
  function HasFeature(s: LicenseStatus, f: Feature): (r: bool)
    ensures r <==> s.Attributes.Some? && AttributeName(f) in s.Attributes.value
                   && s.Attributes.value[AttributeName(f)] == BoolValue(true)
  {
    GetBool(s, AttributeName(f))
  }

  /** The open-source status, with no attribute map, has no feature and the default limits. */
  lemma OpenSourceHasNoFeatures(s: LicenseStatus, f: Feature)
    requires s.Attributes.None?
    ensures !HasFeature(s, f)
    ensures Status(s) == "AGPL - Open Source"
    ensures MaxCores(s) == 3 && MaxMemory(s) == 6 && Ratio(s) == Wrappers.Success(2)
  {
  }
}
