/** Parsing JSON values by a schema, and printing parsed values as JSON. */
module SchemaCodec {
  import opened Options
  import opened Literals

  /** JSON values, and the values parsing adds to them. */
  datatype Val =
    | VStr(s: string)
    | VNum(n: int)
    | VBool(b: bool)
    | VNull
    | VNaN
    | VBig(big: int)
    | VBytes(bytes: seq<Byte>)
    | VArr(elems: seq<Val>)
    | VObj(fields: seq<Field>)

  datatype Field = Field(key: string, value: Val)

  /** `DKlayr32` is 'bytes' in the format of klayr32 addresses. */
  datatype DataType = DString | DBoolean | DBytes | DKlayr32 | DInt32 | DInt64 | DOther

  /** The decoding of klayr32 addresses, which is not part of this model; None when it throws. */
  type Decoder = string -> Option<seq<Byte>>

  datatype Schema =
    | Leaf(dataType: DataType)
    | SObject(props: seq<Prop>)
    | SArray(items: Schema)

  datatype Prop = Prop(key: string, schema: Schema)

  datatype Outcome = Threw | Parsed(value: Val)

  /** `typeof` is not 'object'. */
  predicate Primitive(x: Val) {
    x.VStr? || x.VNum? || x.VBool? || x.VNaN? || x.VBig?
  }

  ghost predicate Json(x: Val)
    decreases x
  {
    match x
    case VArr(elems) => forall i | 0 <= i < |elems| :: Json(elems[i])
    case VObj(fields) => forall i | 0 <= i < |fields| :: Json(fields[i].value)
    case VNaN => false
    case VBig(_) => false
    case VBytes(_) => false
    case _ => true
  }

  // ---- Parser ----

  function Lookup(props: seq<Prop>, key: string): Option<Schema> {
    if props == [] then None
    else if props[0].key == key then Some(props[0].schema)
    else Lookup(props[1..], key)
  }

  function ToText(x: Val): string {
    match x
    case VStr(s) => s
    case VNum(n) => Write(n)
    case VBool(b) => if b then "true" else "false"
    case VBig(n) => Write(n)
    case _ => "NaN"
  }

  function ParsePrimitive(decode: Decoder, x: Val, dataType: DataType): Outcome
    requires Primitive(x)
  {
    match dataType
    case DString => Parsed(VStr(ToText(x)))
    case DBoolean =>
      Parsed(VBool(match x case VStr(s) => s != ""
                           case VNum(n) => n != 0
                           case VBool(b) => b
                           case VBig(n) => n != 0
                           case _ => false))
    case DBytes => if x.VStr? then Parsed(VBytes(ReadHex(x.s))) else Threw
    case DKlayr32 =>
      if !x.VStr? then Threw
      else if "kly" <= x.s then
        (match decode(x.s) case Some(bytes) => Parsed(VBytes(bytes)) case None => Threw)
      else Parsed(VBytes(ReadHex(x.s)))
    case DInt32 =>
      Parsed(match x case VStr(s) => (match Read(s) case Some(n) => VNum(n) case None => VNaN)
                     case VBool(b) => VNum(if b then 1 else 0)
                     case VBig(n) => VNum(n)
                     case _ => x)
    case DInt64 =>
      (match x case VStr(s) => (match Read(s) case Some(n) => Parsed(VBig(n)) case None => Threw)
               case VNum(n) => Parsed(VBig(n))
               case VBool(b) => Parsed(VBig(if b then 1 else 0))
               case VBig(n) => Parsed(x)
               case _ => Threw)
    case DOther => Parsed(x)
  }

  function DataTypeOf(schema: Schema): DataType {
    if schema.Leaf? then schema.dataType else DOther
  }

  predicate AllParsed(rs: seq<Outcome>) {
    forall i | 0 <= i < |rs| :: rs[i].Parsed?
  }

  function ArrayOf(rs: seq<Outcome>): Outcome {
    if AllParsed(rs) then Parsed(VArr(seq(|rs|, i requires 0 <= i < |rs| => rs[i].value)))
    else Threw
  }

  function ObjectOf(keys: seq<string>, rs: seq<Outcome>): Outcome
    requires |keys| == |rs|
  {
    if AllParsed(rs) then
      Parsed(VObj(seq(|rs|, i requires 0 <= i < |rs| => Field(keys[i], rs[i].value))))
    else Threw
  }

  function Parse(decode: Decoder, x: Val, schema: Schema): Outcome
    decreases x, 0
  {
    if Primitive(x) then ParsePrimitive(decode, x, DataTypeOf(schema))
    else
      match schema
      case Leaf(_) => Parsed(x)
      case SArray(items) =>
        if x.VArr? then
          ArrayOf(seq(|x.elems|, i requires 0 <= i < |x.elems| => Parse(decode, x.elems[i], items)))
        else Threw
      case SObject(props) =>
        match x
        case VObj(fields) =>
          ObjectOf(seq(|fields|, i requires 0 <= i < |fields| => fields[i].key),
                   seq(|fields|, i requires 0 <= i < |fields| =>
                     ParseField(decode, fields[i].value, Lookup(props, fields[i].key))))
        case VArr(elems) =>
          // An array counts as an object with the positions as keys.
          ObjectOf(seq(|elems|, i requires 0 <= i < |elems| => WriteNat(i)),
                   seq(|elems|, i requires 0 <= i < |elems| =>
                     ParseField(decode, elems[i], Lookup(props, WriteNat(i)))))
        case _ => Threw
  }

  /** The value of a property; None is the schema of a property the schema does not know. */
  function ParseField(decode: Decoder, x: Val, schema: Option<Schema>): Outcome
    decreases x, 1
  {
    match schema
    case None => if Primitive(x) then ParsePrimitive(decode, x, DOther) else Threw
    case Some(s) => if s.SArray? && !x.VArr? then Threw else Parse(decode, x, s)
  }

  // ---- Printer ----

  function Print(v: Val): Val
    decreases v, 0
  {
    match v
    case VBytes(bytes) => VStr(WriteHex(bytes))
    case VBig(n) => if n == 0 then v else VStr(Write(n))
    case VArr(elems) => VArr(seq(|elems|, i requires 0 <= i < |elems| => Print(elems[i])))
    case VObj(fields) =>
      VObj(seq(|fields|, i requires 0 <= i < |fields| =>
        Field(fields[i].key, PrintField(fields[i].value))))
    case _ => v
  }

  /** Unlike at the root or in an array, a zero in a property is printed. */
  function PrintField(v: Val): Val
    decreases v, 1
  {
    if v.VBig? then VStr(Write(v.big)) else Print(v)
  }

  // ---- Round trip ----

  /** The form in which a primitive survives; `inField` tells a property from a root or an array
      element, where a 64-bit zero does not. */
  predicate StablePrimitive(x: Val, dataType: DataType, inField: bool)
    requires Primitive(x)
  {
    match dataType
    case DString => x.VStr?
    case DBoolean => x.VBool?
    case DBytes => x.VStr? && CanonicalHex(x.s)
    case DKlayr32 => x.VStr? && CanonicalHex(x.s)
    case DInt32 => x.VNum?
    case DInt64 => x.VStr? && CanonicalDecimal(x.s) && (inField || x.s != "0")
    case DOther => true
  }

  ghost predicate Stable(x: Val, schema: Schema, inField: bool)
    decreases x, 0
  {
    if Primitive(x) then StablePrimitive(x, DataTypeOf(schema), inField)
    else
      match schema
      case Leaf(_) => true
      case SArray(items) =>
        x.VArr? && forall i | 0 <= i < |x.elems| :: Stable(x.elems[i], items, false)
      case SObject(props) =>
        x.VObj? && forall i | 0 <= i < |x.fields| ::
          StableField(x.fields[i].value, Lookup(props, x.fields[i].key))
  }

  /** An unknown property must be primitive; an array property must be an array. */
  ghost predicate StableField(x: Val, schema: Option<Schema>)
    decreases x, 1
  {
    match schema
    case None => Primitive(x)
    case Some(s) => (s.SArray? ==> x.VArr?) && Stable(x, s, true)
  }

  lemma {:induction false} PrintKeepsJson(x: Val)
    requires Json(x)
    ensures Print(x) == x && PrintField(x) == x
    decreases x
  {
    match x
    case VArr(elems) =>
      forall i | 0 <= i < |elems| ensures Print(elems[i]) == elems[i] {
        PrintKeepsJson(elems[i]);
      }
    case VObj(fields) =>
      forall i | 0 <= i < |fields| ensures PrintField(fields[i].value) == fields[i].value {
        PrintKeepsJson(fields[i].value);
      }
    case _ =>
  }

  lemma HexIsNoAddress(s: string)
    ensures CanonicalHex(s) ==> !("kly" <= s)
  {
    if "kly" <= s {
      assert s[0] == 'k' && s[0] in s;
    }
  }

  lemma PrimitiveRoundTripIff(decode: Decoder, x: Val, dataType: DataType, inField: bool)
    requires Json(x) && Primitive(x)
    ensures
      var r := ParsePrimitive(decode, x, dataType);
      (r.Parsed? && (if inField then PrintField(r.value) else Print(r.value)) == x)
      <==> StablePrimitive(x, dataType, inField)
  {
    hide Read, ReadHex, Write, WriteHex, CanonicalHex, CanonicalDecimal;
    if x.VStr? {
      HexRoundTripIff(x.s);
      DecimalRoundTripIff(x.s);
      HexIsNoAddress(x.s);
      if Read(x.s).Some? {
        WrittenIsCanonical(Read(x.s).value);
      }
      if decode(x.s).Some? {
        WrittenHexIsCanonical(decode(x.s).value);
      }
    }
  }

  ghost predicate Restored(decode: Decoder, x: Val, schema: Schema, inField: bool) {
    var r := Parse(decode, x, schema);
    r.Parsed? && (if inField then PrintField(r.value) else Print(r.value)) == x
  }

  ghost predicate RestoredField(decode: Decoder, x: Val, schema: Option<Schema>) {
    var r := ParseField(decode, x, schema);
    r.Parsed? && PrintField(r.value) == x
  }

  /** Printing what was parsed gives back the input exactly for the inputs in stable form. */
  lemma {:induction false} RoundTripIff(decode: Decoder, x: Val, schema: Schema, inField: bool)
    requires Json(x)
    ensures Restored(decode, x, schema, inField) <==> Stable(x, schema, inField)
    decreases x, 0
  {
    if Primitive(x) {
      PrimitiveRoundTripIff(decode, x, DataTypeOf(schema), inField);
    } else if schema.Leaf? {
      PrintKeepsJson(x);
    } else if schema.SArray? && x.VArr? {
      forall i | 0 <= i < |x.elems|
        ensures Restored(decode, x.elems[i], schema.items, false)
                <==> Stable(x.elems[i], schema.items, false)
      {
        RoundTripIff(decode, x.elems[i], schema.items, false);
      }
      ArrayRestoredIff(decode, x, schema.items);
    } else if schema.SObject? && x.VObj? {
      forall i | 0 <= i < |x.fields|
        ensures RestoredField(decode, x.fields[i].value, Lookup(schema.props, x.fields[i].key))
                <==> StableField(x.fields[i].value, Lookup(schema.props, x.fields[i].key))
      {
        FieldRoundTripIff(decode, x.fields[i].value, Lookup(schema.props, x.fields[i].key));
      }
      ObjectRestoredIff(decode, x, schema.props);
    } else {
      MismatchIsNotRestored(decode, x, schema, inField);
    }
  }

  /** An array where an object is expected turns into an object; other mismatches throw. */
  lemma MismatchIsNotRestored(decode: Decoder, x: Val, schema: Schema, inField: bool)
    requires Json(x) && !Primitive(x) && !schema.Leaf?
    requires !(schema.SArray? && x.VArr?) && !(schema.SObject? && x.VObj?)
    ensures !Restored(decode, x, schema, inField) && !Stable(x, schema, inField)
  {
    if x.VArr? {
      var n := |x.elems|;
      var keys := seq(n, i requires 0 <= i < n => WriteNat(i));
      var rs := seq(n, i requires 0 <= i < n =>
        ParseField(decode, x.elems[i], Lookup(schema.props, WriteNat(i))));
      var r := ObjectOf(keys, rs);
      assert Parse(decode, x, schema) == r;
      if r.Parsed? {
        assert r.value.VObj?;
        assert Print(r.value).VObj? && PrintField(r.value).VObj?;
      }
    }
  }

  lemma {:induction false} FieldRoundTripIff(decode: Decoder, x: Val, schema: Option<Schema>)
    requires Json(x)
    ensures RestoredField(decode, x, schema) <==> StableField(x, schema)
    decreases x, 1
  {
    match schema
    case None =>
      if Primitive(x) { PrimitiveRoundTripIff(decode, x, DOther, true); }
    case Some(s) =>
      RoundTripIff(decode, x, s, true);
  }

  lemma ArrayRestoredIff(decode: Decoder, x: Val, items: Schema)
    requires x.VArr?
    ensures Restored(decode, x, SArray(items), true) <==> Restored(decode, x, SArray(items), false)
    ensures Restored(decode, x, SArray(items), false)
            <==> forall i | 0 <= i < |x.elems| :: Restored(decode, x.elems[i], items, false)
  {
    var n := |x.elems|;
    var rs := seq(n, i requires 0 <= i < n => Parse(decode, x.elems[i], items));
    assert Parse(decode, x, SArray(items)) == ArrayOf(rs);
    assert forall i | 0 <= i < n :: rs[i] == Parse(decode, x.elems[i], items);
    if AllParsed(rs) {
      var v := ArrayOf(rs).value;
      assert forall i | 0 <= i < n :: Print(v).elems[i] == Print(rs[i].value);
      if Restored(decode, x, SArray(items), false) {
        assert forall i | 0 <= i < n :: Print(rs[i].value) == x.elems[i];
      }
      if forall i | 0 <= i < n :: Restored(decode, x.elems[i], items, false) {
        assert Print(v).elems == x.elems;
      }
    }
  }

  lemma ObjectRestoredIff(decode: Decoder, x: Val, props: seq<Prop>)
    requires x.VObj?
    ensures Restored(decode, x, SObject(props), true)
            <==> Restored(decode, x, SObject(props), false)
    ensures Restored(decode, x, SObject(props), false)
            <==> forall i | 0 <= i < |x.fields| ::
                   RestoredField(decode, x.fields[i].value, Lookup(props, x.fields[i].key))
  {
    var n := |x.fields|;
    var keys := seq(n, i requires 0 <= i < n => x.fields[i].key);
    var rs := seq(n, i requires 0 <= i < n =>
      ParseField(decode, x.fields[i].value, Lookup(props, x.fields[i].key)));
    assert Parse(decode, x, SObject(props)) == ObjectOf(keys, rs);
    assert forall i | 0 <= i < n ::
      rs[i] == ParseField(decode, x.fields[i].value, Lookup(props, x.fields[i].key));
    if AllParsed(rs) {
      var v := ObjectOf(keys, rs).value;
      assert forall i | 0 <= i < n ::
        Print(v).fields[i] == Field(x.fields[i].key, PrintField(rs[i].value));
      if Restored(decode, x, SObject(props), false) {
        assert forall i | 0 <= i < n :: PrintField(rs[i].value) == x.fields[i].value;
      }
      if forall i | 0 <= i < n ::
          RestoredField(decode, x.fields[i].value, Lookup(props, x.fields[i].key)) {
        assert Print(v).fields == x.fields;
      }
    }
  }

  // ---- The other way round ----

  predicate TypedPrimitive(v: Val, dataType: DataType) {
    match dataType
    case DString => v.VStr?
    case DBoolean => v.VBool?
    case DBytes => v.VBytes?
    case DKlayr32 => v.VBytes?
    case DInt32 => v.VNum?
    case DInt64 => v.VBig?
    case DOther => v.VStr? || v.VBool? || v.VNum?
  }

  /** A value of the schema's types. */
  ghost predicate Typed(v: Val, schema: Schema)
    decreases v, 0
  {
    match schema
    case Leaf(dataType) => TypedPrimitive(v, dataType)
    case SArray(items) =>
      v.VArr? && forall i | 0 <= i < |v.elems| :: Typed(v.elems[i], items)
    case SObject(props) =>
      v.VObj? && forall i | 0 <= i < |v.fields| ::
        TypedField(v.fields[i].value, Lookup(props, v.fields[i].key))
  }

  ghost predicate TypedField(v: Val, schema: Option<Schema>)
    decreases v, 1
  {
    match schema
    case None => TypedPrimitive(v, DOther)
    case Some(s) => Typed(v, s)
  }

  lemma PrimitiveParsesBack(decode: Decoder, v: Val, dataType: DataType)
    requires TypedPrimitive(v, dataType)
    ensures Primitive(Print(v)) && Primitive(PrintField(v))
    ensures ParsePrimitive(decode, Print(v), dataType) == Parsed(v)
    ensures ParsePrimitive(decode, PrintField(v), dataType) == Parsed(v)
  {
    hide Read, ReadHex, Write, WriteHex;
    if v.VBytes? {
      ReadWriteHex(v.bytes);
      WrittenHexIsCanonical(v.bytes);
      HexIsNoAddress(WriteHex(v.bytes));
    }
    if v.VBig? { ReadWrite(v.big); }
  }

  /** Parsing what was printed gives back every typed value, zero included. */
  lemma {:induction false} PrintedParsesBack(decode: Decoder, v: Val, schema: Schema)
    requires Typed(v, schema)
    ensures Parse(decode, Print(v), schema) == Parse(decode, PrintField(v), schema) == Parsed(v)
    decreases v, 1
  {
    if schema.Leaf? {
      PrimitiveParsesBack(decode, v, schema.dataType);
    } else if schema.SArray? {
      var n, p := |v.elems|, Print(v);
      forall i | 0 <= i < n ensures Parse(decode, p.elems[i], schema.items) == Parsed(v.elems[i]) {
        PrintedParsesBack(decode, v.elems[i], schema.items);
      }
      var rs := seq(n, i requires 0 <= i < n => Parse(decode, p.elems[i], schema.items));
      assert Parse(decode, p, schema) == ArrayOf(rs);
      assert ArrayOf(rs).value.elems == v.elems;
    } else {
      ObjectParsesBack(decode, v, schema.props);
    }
  }

  lemma {:induction false} ObjectParsesBack(decode: Decoder, v: Val, props: seq<Prop>)
    requires Typed(v, SObject(props))
    ensures Parse(decode, Print(v), SObject(props)) == Parsed(v)
    decreases v, 0
  {
    var n, p := |v.fields|, Print(v);
    forall i | 0 <= i < n
      ensures ParseField(decode, p.fields[i].value, Lookup(props, p.fields[i].key))
              == Parsed(v.fields[i].value)
    {
      FieldParsesBack(decode, v.fields[i].value, Lookup(props, v.fields[i].key));
    }
    var keys := seq(n, i requires 0 <= i < n => p.fields[i].key);
    var rs := seq(n, i requires 0 <= i < n =>
      ParseField(decode, p.fields[i].value, Lookup(props, p.fields[i].key)));
    assert Parse(decode, p, SObject(props)) == ObjectOf(keys, rs);
    assert ObjectOf(keys, rs).value.fields == v.fields;
  }

  lemma {:induction false} FieldParsesBack(decode: Decoder, v: Val, schema: Option<Schema>)
    requires TypedField(v, schema)
    ensures ParseField(decode, PrintField(v), schema) == Parsed(v)
    decreases v, 2
  {
    match schema
    case None => PrimitiveParsesBack(decode, v, DOther);
    case Some(s) => PrintedParsesBack(decode, v, s);
  }

  // ---- What primitives parse to ----

  /** Integers, as numbers and as texts, mean the same under either integer type. */
  lemma IntegersParse(decode: Decoder, n: int)
    ensures Parse(decode, VNum(n), Leaf(DInt64)) == Parsed(VBig(n))
    ensures Parse(decode, VStr(Write(n)), Leaf(DInt64)) == Parsed(VBig(n))
    ensures Parse(decode, VNum(n), Leaf(DInt32)) == Parsed(VNum(n))
    ensures Parse(decode, VStr(Write(n)), Leaf(DInt32)) == Parsed(VNum(n))
    ensures Parse(decode, VNum(n), Leaf(DString)) == Parsed(VStr(Write(n)))
    ensures Parse(decode, VNum(n), Leaf(DBytes)) == Parse(decode, VNum(n), Leaf(DKlayr32)) == Threw
  {
    ReadWrite(n);
  }

  /** Texts that are no integers: not a number, and an exception. */
  lemma OtherTextsAreNoIntegers(decode: Decoder, s: string)
    ensures Read(s).None? ==> Parse(decode, VStr(s), Leaf(DInt32)) == Parsed(VNaN)
    ensures Read(s).None? ==> Parse(decode, VStr(s), Leaf(DInt64)) == Threw
    ensures Read(s).Some? ==> Parse(decode, VStr(s), Leaf(DInt32)) == Parsed(VNum(Read(s).value))
    ensures Read(s).Some? ==> Parse(decode, VStr(s), Leaf(DInt64)) == Parsed(VBig(Read(s).value))
  {
  }

  /** Booleans, and what counts as true. */
  lemma BooleansParse(decode: Decoder, b: bool, s: string, n: int)
    ensures Parse(decode, VBool(b), Leaf(DBoolean)) == Parsed(VBool(b))
    ensures Parse(decode, VStr(s), Leaf(DBoolean)) == Parsed(VBool(s != ""))
    ensures Parse(decode, VNum(n), Leaf(DBoolean)) == Parsed(VBool(n != 0))
    ensures Parse(decode, VBig(n), Leaf(DBoolean)) == Parsed(VBool(n != 0))
    ensures Parse(decode, VBool(b), Leaf(DString)) == Parsed(VStr(if b then "true" else "false"))
    ensures Parse(decode, VBool(b), Leaf(DInt32)) == Parsed(VNum(if b then 1 else 0))
    ensures Parse(decode, VBool(b), Leaf(DInt64)) == Parsed(VBig(if b then 1 else 0))
    ensures Parse(decode, VBool(b), Leaf(DBytes)) == Parse(decode, VBool(b), Leaf(DKlayr32))
            == Threw
  {
  }

  /** Texts stay texts, and an unknown type leaves every primitive alone. */
  lemma TextsParse(decode: Decoder, s: string, x: Val)
    requires Primitive(x)
    ensures Parse(decode, VStr(s), Leaf(DString)) == Parsed(VStr(s))
    ensures Parse(decode, x, Leaf(DOther)) == Parsed(x)
  {
  }

  /** Bytes in either case of letters, up to the first pair that is no hexadecimal byte. */
  lemma BytesParse(decode: Decoder, bytes: seq<Byte>, upper: string, rest: string)
    requires SameHex(upper, WriteHex(bytes))
    requires |rest| < 2 || !IsHex(rest[0]) || !IsHex(rest[1])
    ensures Parse(decode, VStr(WriteHex(bytes)), Leaf(DBytes)) == Parsed(VBytes(bytes))
    ensures Parse(decode, VStr(upper), Leaf(DBytes)) == Parsed(VBytes(bytes))
    ensures Parse(decode, VStr(WriteHex(bytes) + rest), Leaf(DBytes)) == Parsed(VBytes(bytes))
  {
    ReadWriteHex(bytes);
    ReadingIgnoresCase(upper, WriteHex(bytes));
    ReadingStops(bytes, rest);
  }

  /** Under the address format an address parses to its bytes, and so does their hexadecimal form.
      A text that begins like an address and is none makes the parser throw. */
  lemma AddressesParse(decode: Decoder, address: string, bytes: seq<Byte>)
    requires "kly" <= address
    ensures decode(address) == Some(bytes) ==>
      Parse(decode, VStr(address), Leaf(DKlayr32)) == Parsed(VBytes(bytes))
    ensures Parse(decode, VStr(WriteHex(bytes)), Leaf(DKlayr32)) == Parsed(VBytes(bytes))
    ensures decode(address).None? ==> Parse(decode, VStr(address), Leaf(DKlayr32)) == Threw
  {
    ReadWriteHex(bytes);
    WrittenHexIsCanonical(bytes);
    HexIsNoAddress(WriteHex(bytes));
  }

  // ---- Containers ----

  /** An array is parsed element by element, and throws if an element does. */
  lemma ArrayParsesElements(decode: Decoder, xs: seq<Val>, items: Schema)
    ensures var r := Parse(decode, VArr(xs), SArray(items));
            && (r == Threw <==> exists i :: 0 <= i < |xs| && Parse(decode, xs[i], items) == Threw)
            && (r.Parsed? ==> r.value.VArr? && |r.value.elems| == |xs|)
            && (r.Parsed? ==> forall i | 0 <= i < |xs| ::
                                Parse(decode, xs[i], items) == Parsed(r.value.elems[i]))
  {
    var n := |xs|;
    var rs := seq(n, i requires 0 <= i < n => Parse(decode, xs[i], items));
    assert Parse(decode, VArr(xs), SArray(items)) == ArrayOf(rs);
    assert forall i | 0 <= i < n :: rs[i] == Parse(decode, xs[i], items);
  }

  ghost predicate FirstAt(props: seq<Prop>, key: string, schema: Schema, i: int) {
    && 0 <= i < |props| && props[i] == Prop(key, schema)
    && forall j | 0 <= j < i :: props[j].key != key
  }

  /** The schema of a property is the first one given for its key. */
  lemma {:induction false} LookupFindsFirst(props: seq<Prop>, key: string)
    ensures Lookup(props, key).None? ==> forall i | 0 <= i < |props| :: props[i].key != key
    ensures Lookup(props, key).Some? ==>
      exists i :: FirstAt(props, key, Lookup(props, key).value, i)
  {
    if props != [] {
      if props[0].key == key {
        assert Lookup(props, key) == Some(props[0].schema);
        assert FirstAt(props, key, props[0].schema, 0);
      } else {
        LookupFindsFirst(props[1..], key);
        if Lookup(props[1..], key).Some? {
          var schema := Lookup(props[1..], key).value;
          var i :| FirstAt(props[1..], key, schema, i);
          forall j | 0 <= j < i + 1 ensures props[j].key != key {
            assert j > 0 ==> props[j] == props[1..][j - 1];
          }
          assert props[i + 1] == props[1..][i];
          assert Lookup(props, key).value == schema && FirstAt(props, key, schema, i + 1);
        } else {
          assert forall i | 1 <= i < |props| :: props[i] == props[1..][i - 1];
        }
      }
    }
  }

  /** What a property parses to: a primitive by its type, whatever shape it should have had, except
      that an array property must be an array; an unknown property must be primitive and stays. */
  ghost function PropertyOutcome(decode: Decoder, field: Field, props: seq<Prop>): Outcome {
    match Lookup(props, field.key)
    case None => if Primitive(field.value) then Parsed(field.value) else Threw
    case Some(s) =>
      if s.SArray? && !field.value.VArr? then Threw else Parse(decode, field.value, s)
  }

  /** An object is parsed property by property under the same keys in the same order. */
  lemma ObjectParsesProperties(decode: Decoder, fields: seq<Field>, props: seq<Prop>)
    ensures var r := Parse(decode, VObj(fields), SObject(props));
            && (r == Threw <==>
                exists i :: 0 <= i < |fields| && PropertyOutcome(decode, fields[i], props) == Threw)
            && (r.Parsed? ==> r.value.VObj? && |r.value.fields| == |fields|)
            && (r.Parsed? ==> forall i | 0 <= i < |fields| ::
                  && PropertyOutcome(decode, fields[i], props) == Parsed(r.value.fields[i].value)
                  && r.value.fields[i].key == fields[i].key)
  {
    var n := |fields|;
    var keys := seq(n, i requires 0 <= i < n => fields[i].key);
    var rs := seq(n, i requires 0 <= i < n =>
      ParseField(decode, fields[i].value, Lookup(props, fields[i].key)));
    assert Parse(decode, VObj(fields), SObject(props)) == ObjectOf(keys, rs);
    forall i | 0 <= i < n ensures rs[i] == PropertyOutcome(decode, fields[i], props) {
      PropertyParses(decode, fields[i], props);
    }
    hide PropertyOutcome, ParseField, Lookup;
  }

  lemma PropertyParses(decode: Decoder, field: Field, props: seq<Prop>)
    ensures ParseField(decode, field.value, Lookup(props, field.key))
            == PropertyOutcome(decode, field, props)
  {
    hide Lookup;
  }

  /** Addresses as elements and as properties. */
  lemma AddressesInContainers(decode: Decoder, key: string, address: string, bytes: seq<Byte>)
    requires "kly" <= address && decode(address) == Some(bytes)
    ensures Parse(decode, VArr([VStr(address)]), SArray(Leaf(DKlayr32)))
            == Parsed(VArr([VBytes(bytes)]))
    ensures Parse(decode, VObj([Field(key, VStr(address))]), SObject([Prop(key, Leaf(DKlayr32))]))
            == Parsed(VObj([Field(key, VBytes(bytes))]))
  {
    AddressesParse(decode, address, bytes);
    var leaf, x := Leaf(DKlayr32), VStr(address);
    ArrayParsesElements(decode, [x], leaf);
    var a := Parse(decode, VArr([x]), SArray(leaf));
    assert [x][0] == x && a != Threw;
    assert a.value.elems == [VBytes(bytes)];
    var props, fields := [Prop(key, leaf)], [Field(key, x)];
    assert Lookup(props, key) == Some(leaf);
    ObjectParsesProperties(decode, fields, props);
    var o := Parse(decode, VObj(fields), SObject(props));
    assert fields[0].value == x && o != Threw;
    assert o.value.fields == [Field(key, VBytes(bytes))];
  }

  /** A text that looks like an address and is none makes every container throw. */
  lemma BadAddressesInContainers(decode: Decoder, key: string, address: string)
    requires "kly" <= address && decode(address).None?
    ensures Parse(decode, VArr([VStr(address)]), SArray(Leaf(DKlayr32))) == Threw
    ensures Parse(decode, VObj([Field(key, VStr(address))]), SObject([Prop(key, Leaf(DKlayr32))]))
            == Threw
  {
    AddressesParse(decode, address, []);
    var leaf, x := Leaf(DKlayr32), VStr(address);
    ArrayParsesElements(decode, [x], leaf);
    assert Parse(decode, [x][0], leaf) == Threw;
    var props, fields := [Prop(key, leaf)], [Field(key, x)];
    assert Lookup(props, key) == Some(leaf);
    ObjectParsesProperties(decode, fields, props);
    assert fields[0].value == x;
  }

  /** A 64-bit zero, directly in an array, comes back as a big integer and not as the text. */
  lemma ZeroInArrayIsNotPrinted(decode: Decoder)
    ensures Parse(decode, VArr([VStr("0")]), SArray(Leaf(DInt64))) == Parsed(VArr([VBig(0)]))
    ensures Print(VArr([VBig(0)])) == VArr([VBig(0)])
  {
    DecimalRoundTripIff("0");
    assert Read("0") == Some(0) by {
      WrittenIsCanonical(Read("0").value);
    }
    assert Parse(decode, VStr("0"), Leaf(DInt64)) == Parsed(VBig(0));
    var rs := [Parse(decode, VStr("0"), Leaf(DInt64))];
    assert ArrayOf(rs).value.elems == [VBig(0)];
    assert Print(VArr([VBig(0)])).elems == [VBig(0)];
  }
}
