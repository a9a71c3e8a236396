/**
  Reflective access to the records ("DTOs") the generator reads and fills:
  getFieldValue, setFieldValue and the type coercion convertValue.

  Reflection is replaced by explicit tables. A record is the map from each
  field its class declares to the field's value (None for null); a record
  class is its no-argument constructor (the record it builds, if it has
  one) and its public methods, in the order Class.getMethods returns them.
  A setter "set" + Name is taken to store its argument into the field
  "name", as JavaBean setters do.
 */
module FieldMapper {
  import opened Base

  // ---------------------------------------------------------------------------
  // Values and types

  /** The runtime class of a field value, boxed: Integer, Long, Double,
      String, Boolean; any other subclass of Number (Float, Short, Byte,
      BigDecimal, BigInteger, ...) with its class name, the further classes
      and interfaces it is an instance of, its doubleValue and what its
      toString returns; or an instance of a class outside Number with the
      same, less the doubleValue. */
  datatype Value =
    | VString(s: string)
    | VInteger(i: int)
    | VLong(i: int)
    | VDouble(x: real)
    | VBoolean(b: bool)
    | VNumber(className: string, supertypes: set<string>, x: real, text: string)
    | VObject(className: string, supertypes: set<string>, text: string)

  /** instanceof Number. */
  predicate IsNumber(v: Value) {
    v.VInteger? || v.VLong? || v.VDouble? || v.VNumber?
  }

  /** Number.doubleValue. */
  function NumberValue(v: Value): real
    requires IsNumber(v)
  {
    match v
    case VInteger(i) => i as real
    case VLong(i) => i as real
    case VDouble(x) => x
    case VNumber(_, _, x, _) => x
  }

  /** The declared type of a setter's parameter. A primitive and its box take
      the same branch of convertValue and share one constructor here. */
  datatype Ty = TInteger | TLong | TDouble | TString | TBoolean | TObject | TClass(name: string)

  /** The names of the classes and interfaces v is an instance of: its own
      class and every supertype, java.lang.Object included. */
  function InstanceOf(v: Value): (names: set<string>)
    ensures "java.lang.Object" in names
    ensures IsNumber(v) <==> "java.lang.Number" in names
    ensures v.VString? ==> "java.lang.CharSequence" in names && "java.lang.Comparable" in names
  {
    match v
    case VString(_) => {"java.lang.String", "java.lang.CharSequence", "java.lang.Comparable", "java.io.Serializable", "java.lang.Object"}
    case VInteger(_) => {"java.lang.Integer", "java.lang.Number", "java.lang.Comparable", "java.io.Serializable", "java.lang.Object"}
    case VLong(_) => {"java.lang.Long", "java.lang.Number", "java.lang.Comparable", "java.io.Serializable", "java.lang.Object"}
    case VDouble(_) => {"java.lang.Double", "java.lang.Number", "java.lang.Comparable", "java.io.Serializable", "java.lang.Object"}
    case VBoolean(_) => {"java.lang.Boolean", "java.lang.Comparable", "java.io.Serializable", "java.lang.Object"}
    case VNumber(c, sup, _, _) => {c, "java.lang.Number", "java.io.Serializable", "java.lang.Object"} + sup
    case VObject(c, sup, _) => ({c, "java.lang.Object"} + sup) - {"java.lang.Number"}
  }

  /** Method.invoke accepts v for a parameter of type t: v is an instance of
      t, subclasses and implementors included (Object takes anything). The
      boxes and primitives of Integer, Long, Double, String and Boolean are
      final classes, so only their own instances pass. */
  predicate Accepts(t: Ty, v: Value) {
    match t
    case TInteger => v.VInteger?
    case TLong => v.VLong?
    case TDouble => v.VDouble?
    case TString => v.VString?
    case TBoolean => v.VBoolean?
    case TObject => true
    case TClass(name) => name in InstanceOf(v)
  }

  // ---------------------------------------------------------------------------
  // Text forms (toString)

  /** Double.intValue / longValue: the integer part, rounding toward zero. */
  function TruncateTowardZero(x: real): (i: int)
    ensures 0.0 <= x ==> 0 <= i && i as real <= x < i as real + 1.0
    ensures x < 0.0 ==> i <= 0 && i as real - 1.0 < x <= i as real
  {
    if x >= 0.0 then x.Floor else -((-x).Floor)
  }

  /** Up to fuel decimal digits of a fraction in [0, 1), stopping once the
      rest is zero. */
  function FractionDigits(f: real, fuel: nat): (r: string)
    requires 0.0 <= f < 1.0
    ensures forall k :: 0 <= k < |r| ==> IsDigit(r[k])
    decreases fuel
  {
    if f == 0.0 || fuel == 0 then ""
    else
      var d := (f * 10.0).Floor;
      [('0' as int + d) as char] + FractionDigits(f * 10.0 - d as real, fuel - 1)
  }

  /** Integer part, '.', and at least one fractional digit: "30.0", "2.5". */
  function PlainText(y: real): string
    requires y >= 0.0
  {
    var fraction := FractionDigits(y - y.Floor as real, 17);
    NatText(y.Floor) + "." + (if fraction == "" then "0" else fraction)
  }

  /** The decimal exponent e with 1 <= y / 10^e < 10, searched for at most
      fuel steps (a double's exponent lies within 400 of zero). */
  function DecimalExponent(y: real, fuel: nat): int
    requires y > 0.0
    decreases fuel
  {
    if fuel == 0 then 0
    else if y >= 10.0 then 1 + DecimalExponent(y / 10.0, fuel - 1)
    else if y < 1.0 then -1 + DecimalExponent(y * 10.0, fuel - 1)
    else 0
  }

  function Power10(e: int): (p: real)
    ensures p > 0.0
    decreases if e < 0 then -e else e
  {
    if e == 0 then 1.0 else if e > 0 then 10.0 * Power10(e - 1) else Power10(e + 1) / 10.0
  }

  /** Double.toString: plain notation for magnitudes in [10^-3, 10^7),
      computerised scientific notation ("1.0E7") outside it. */
  function DoubleText(x: real): string {
    if x < 0.0 then "-" + MagnitudeText(-x) else MagnitudeText(x)
  }

  function MagnitudeText(y: real): string
    requires y >= 0.0
  {
    if y == 0.0 || (0.001 <= y < 10000000.0) then PlainText(y)
    else
      var e := DecimalExponent(y, 400);
      var p := Power10(e);
      assert y / p >= 0.0;
      PlainText(y / p) + "E" + IntText(e)
  }

  /** Object.toString of a value. */
  function Text(v: Value): (r: string)
    ensures v.VString? ==> r == v.s
    ensures v.VInteger? || v.VLong? ==> |r| >= 1 && (r[0] == '-' <==> v.i < 0)
    ensures v.VBoolean? ==> (r == "true" <==> v.b) && (r == "false" <==> !v.b)
  {
    match v
    case VString(s) => s
    case VInteger(i) => IntText(i)
    case VLong(i) => IntText(i)
    case VDouble(x) => DoubleText(x)
    case VBoolean(b) => if b then "true" else "false"
    case VNumber(_, _, _, text) => text
    case VObject(_, _, text) => text
  }

  // ---------------------------------------------------------------------------
  // convertValue

  /** convertValue: a Double becomes an Integer or a Long by truncation, any
      Number becomes a Double, anything becomes a String through toString;
      every other combination, Boolean targets included, is passed on
      unchanged. */
  function ConvertValue(v: Value, t: Ty): (r: Value)
    ensures t == TString ==> r == VString(Text(v))
    ensures t == TInteger && v.VDouble? ==> r == VInteger(TruncateTowardZero(v.x))
    ensures t == TLong && v.VDouble? ==> r == VLong(TruncateTowardZero(v.x))
    ensures t == TDouble && IsNumber(v) ==> r == VDouble(NumberValue(v))
    ensures !(t == TString || ((t == TInteger || t == TLong) && v.VDouble?) || (t == TDouble && IsNumber(v)))
            ==> r == v
  {
    match t
    case TInteger => if v.VDouble? then VInteger(TruncateTowardZero(v.x)) else v
    case TLong => if v.VDouble? then VLong(TruncateTowardZero(v.x)) else v
    case TDouble => if IsNumber(v) then VDouble(NumberValue(v)) else v
    case TString => VString(Text(v))
    case TBoolean => v
    case _ => v
  }

  /** Converting twice is converting once. */
  lemma ConvertIdempotent(v: Value, t: Ty)
    ensures ConvertValue(ConvertValue(v, t), t) == ConvertValue(v, t)
  {
  }

  /** When the setter accepts the converted value: always for String and
      Object parameters; for Integer and Long ones when the value already has
      that type or is a Double; for Double ones when it is any Number; for
      Boolean and other classes only when it already has that type. */
  lemma ConvertedAccepted(v: Value, t: Ty)
    ensures Accepts(t, ConvertValue(v, t)) <==>
      || t == TString || t == TObject
      || Accepts(t, v)
      || ((t == TInteger || t == TLong) && v.VDouble?)
      || (t == TDouble && IsNumber(v))
  {
  }

  /** A parameter declared with a supertype or an interface takes the value
      unconverted: Number takes every number, CharSequence and Comparable
      take a String. */
  lemma SupertypeParameterTakesValue(v: Value, name: string)
    requires (name == "java.lang.Number" && IsNumber(v))
          || ((name == "java.lang.CharSequence" || name == "java.lang.Comparable") && v.VString?)
    ensures ConvertValue(v, TClass(name)) == v
    ensures Accepts(TClass(name), ConvertValue(v, TClass(name)))
  {
  }

  // ---------------------------------------------------------------------------
  // Records and getFieldValue

  /** Each field the record's class declares, with its value (None: null). */
  type Record = map<string, Option<Value>>

  /** A public method: its name and its parameter types. */
  datatype MethodSig = MethodSig(name: string, params: seq<Ty>)

  /** A record class: what its no-argument constructor builds (None: it has
      none) and its public methods in Class.getMethods order. */
  datatype DtoClass = DtoClass(newInstance: Option<Record>, methods: seq<MethodSig>)

  /** getFieldValue: the value of a declared field; a null name or an
      undeclared field throws. */
  function GetFieldValue(dto: Record, fieldName: Option<string>): (r: Result<Option<Value>>)
    ensures r.Success? <==> fieldName.Some? && fieldName.value in dto
    ensures r.Success? ==> r.value == dto[fieldName.value]
    ensures fieldName.None? ==> r == Failure(NullPointer)
    ensures fieldName.Some? && fieldName.value !in dto ==> r == Failure(NoSuchField(fieldName.value))
  {
    match fieldName
    case None => Failure(NullPointer)
    case Some(name) => if name in dto then Success(dto[name]) else Failure(NoSuchField(name))
  }

  // ---------------------------------------------------------------------------
  // setFieldValue

  /** "set" followed by the field name with its first letter upper-cased. */
  function SetterName(fieldName: string): (r: string)
    requires |fieldName| > 0
    ensures |r| == |fieldName| + 3 && r[..3] == "set" && r[4..] == fieldName[1..]
    ensures r[3] == UpperCase(fieldName[0])
  {
    "set" + [UpperCase(fieldName[0])] + fieldName[1..]
  }

  /** m is a one-argument method called name. */
  predicate IsSetter(m: MethodSig, name: string) {
    m.name == name && |m.params| == 1
  }

  /** The index of the first one-argument method called name, if any. */
  function FindSetter(methods: seq<MethodSig>, name: string): (r: Option<nat>)
    ensures r.Some? ==> r.value < |methods| && IsSetter(methods[r.value], name)
    ensures r.Some? ==> forall k :: 0 <= k < r.value ==> !IsSetter(methods[k], name)
    ensures r.None? ==> forall k :: 0 <= k < |methods| ==> !IsSetter(methods[k], name)
  {
    if methods == [] then None
    else
      var p := methods[..|methods| - 1];
      var found := FindSetter(p, name);
      if found.Some? then Some(found.value)
      else if IsSetter(methods[|methods| - 1], name) then Some(|methods| - 1)
      else None
  }

  /** The parameter type of the setter setFieldValue would call. */
  function SetterParam(cls: DtoClass, fieldName: string): Ty
    requires |fieldName| > 0 && FindSetter(cls.methods, SetterName(fieldName)).Some?
  {
    cls.methods[FindSetter(cls.methods, SetterName(fieldName)).value].params[0]
  }

  /** setFieldValue throws: charAt(0) on an empty name, or Method.invoke
      refusing the converted value. A null value never throws. */
  predicate SetFails(cls: DtoClass, fieldName: string, value: Option<Value>) {
    value.Some? && (|fieldName| == 0 ||
      (FindSetter(cls.methods, SetterName(fieldName)).Some? &&
       !Accepts(SetterParam(cls, fieldName), ConvertValue(value.value, SetterParam(cls, fieldName)))))
  }

  /** What setFieldValue throws: charAt(0) on an empty field name, or
      Method.invoke with an argument the setter does not take. */
  predicate SetterError(e: Error) {
    e == StringIndexOutOfBounds || e.IllegalArgument?
  }

  /** What setFieldValue does to the record. */
  function SetField(cls: DtoClass, dto: Record, fieldName: string, value: Option<Value>): (r: Result<Record>)
    // a null value, or no setter, leaves the record as it was
    ensures value.None? ==> r == Success(dto)
    ensures |fieldName| > 0 && FindSetter(cls.methods, SetterName(fieldName)).None? ==> r == Success(dto)
    // no other field ever changes
    ensures r.Success? ==> forall f :: f != fieldName ==>
              (f in r.value <==> f in dto) && (f in dto ==> r.value[f] == dto[f])
    // with a value and a setter, the named field holds the converted value
    ensures r.Success? && value.Some? && |fieldName| > 0 && FindSetter(cls.methods, SetterName(fieldName)).Some? ==>
              r.value == dto[fieldName := Some(ConvertValue(value.value, SetterParam(cls, fieldName)))]
    // the calls that throw, whatever the record holds, and what they throw
    ensures r.Failure? <==> SetFails(cls, fieldName, value)
    ensures r.Failure? && |fieldName| == 0 ==> r.error == StringIndexOutOfBounds
    ensures r.Failure? && |fieldName| > 0 ==> r.error == IllegalArgument(SetterName(fieldName))
  {
    if value.None? then Success(dto)
    else if |fieldName| == 0 then Failure(StringIndexOutOfBounds)
    else match FindSetter(cls.methods, SetterName(fieldName))
      case None => Success(dto)
      case Some(k) =>
        var paramType := cls.methods[k].params[0];
        var converted := ConvertValue(value.value, paramType);
        if Accepts(paramType, converted) then Success(dto[fieldName := Some(converted)])
        else Failure(IllegalArgument(SetterName(fieldName)))
  }

  /** A setter declared with a Number parameter stores the Double read from
      a numeric cell as it is. */
  lemma NumberSetterTakesDouble(x: real)
    ensures var cls := DtoClass(Some(map["amount" := None]), [MethodSig("setAmount", [TClass("java.lang.Number")])]);
            SetField(cls, map["amount" := None], "amount", Some(VDouble(x))) == Success(map["amount" := Some(VDouble(x))])
  {
    var cls := DtoClass(Some(map["amount" := None]), [MethodSig("setAmount", [TClass("java.lang.Number")])]);
    assert SetterName("amount") == "setAmount";
    assert FindSetter(cls.methods, "setAmount") == Some(0);
    SupertypeParameterTakesValue(VDouble(x), "java.lang.Number");
    assert map["amount" := None]["amount" := Some(VDouble(x))] == map["amount" := Some(VDouble(x))];
  }

  /** setFieldValue: scans the methods for the first one-argument setter of
      the field and invokes it with the converted value. */
  method SetFieldValue(cls: DtoClass, dto: Record, fieldName: string, value: Option<Value>)
    returns (r: Result<Record>)
    ensures r == SetField(cls, dto, fieldName, value)
  {
    if value.None? {
      return Success(dto);
    }
    if |fieldName| == 0 {
      return Failure(StringIndexOutOfBounds);
    }
    var setterName := SetterName(fieldName);
    var methods := cls.methods;
    for i := 0 to |methods|
      invariant forall k :: 0 <= k < i ==> !IsSetter(methods[k], setterName)
    {
      if methods[i].name == setterName && |methods[i].params| == 1 {
        var paramType := methods[i].params[0];
        var converted := ConvertValue(value.value, paramType);
        if !Accepts(paramType, converted) {
          return Failure(IllegalArgument(setterName));
        }
        return Success(dto[fieldName := Some(converted)]);
      }
    }
    return Success(dto);
  }
}
