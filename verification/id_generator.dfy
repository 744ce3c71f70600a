/**
 * Identifier formats of backend/app/util/id_generator.py. The clock reading
 * (`int(datetime.now().timestamp())`) and the random UUID (`uuid.uuid4().hex`)
 * are parameters, so every generator is a pure function of them.
 */
module IdGenerator {
  import opened Wrappers
  import opened Text

  predicate IsHexDigit(c: char) { '0' <= c <= '9' || 'a' <= c <= 'f' }

  predicate IsHex(s: string) { forall i :: 0 <= i < |s| ==> IsHexDigit(s[i]) }

  /** What `uuid.UUID.hex` yields: 32 lower-case hexadecimal digits. */
  predicate IsUuidHex(h: string) { |h| == 32 && IsHex(h) }

  /** Length of the random part of every identifier. */
  const UniqueLength: nat := 8

  /** `generate_id`: the timestamp in whole seconds and the first eight hex digits of the UUID. */
  function GenerateId(timestamp: int, uuidHex: string): (id: (int, string))
    requires IsUuidHex(uuidHex)
    ensures id.0 == timestamp
    ensures |id.1| == UniqueLength && IsHex(id.1) && StartsWith(uuidHex, id.1)
  {
    (timestamp, uuidHex[..UniqueLength])
  }

  /** `generate_store_id`: "STR_" + timestamp + "_" + unique part. */
  function StoreId(timestamp: int, uuidHex: string): string
    requires IsUuidHex(uuidHex)
  {
    var (ts, unique) := GenerateId(timestamp, uuidHex);
    "STR_" + IntToString(ts) + "_" + unique
  }

  /** `generate_product_id`: "PRD_" + timestamp + "_" + unique part. */
  function ProductId(timestamp: int, uuidHex: string): string
    requires IsUuidHex(uuidHex)
  {
    var (ts, unique) := GenerateId(timestamp, uuidHex);
    "PRD_" + IntToString(ts) + "_" + unique
  }

  /** `generate_payment_id`: "PAY_" + unique part + "_" + timestamp (the order is reversed). */
  function PaymentId(timestamp: int, uuidHex: string): string
    requires IsUuidHex(uuidHex)
  {
    var (ts, unique) := GenerateId(timestamp, uuidHex);
    "PAY_" + unique + "_" + IntToString(ts)
  }

  datatype IdKind = Store | Product | Payment

  /** The fields an identifier carries. */
  datatype IdParts = IdParts(kind: IdKind, timestamp: int, unique: string)

  /** A well-formed unique part: eight hex digits. */
  predicate IsUnique(u: string) { |u| == UniqueLength && IsHex(u) }

  /**
   * Reads an identifier back into its kind, timestamp and unique part, by
   * splitting on '_'. It is the inverse of the three formats (see
   * ParseGeneratedIds); it is more lenient than the generators, and also
   * accepts text they never write, such as a timestamp of "-0" or one with
   * leading zeros ("STR_007_...").
   */
  function ParseId(id: string): (r: Option<IdParts>)
    ensures r.Some? ==> IsUnique(r.value.unique)
  {
    var parts := SplitOn(id, '_');
    if |parts| != 3 then None
    else if parts[0] == "STR" || parts[0] == "PRD" then
      var ts := ParseInt(parts[1]);
      if ts.Some? && IsUnique(parts[2]) then
        Some(IdParts(if parts[0] == "STR" then Store else Product, ts.value, parts[2]))
      else None
    else if parts[0] == "PAY" then
      var ts := ParseInt(parts[2]);
      if ts.Some? && IsUnique(parts[1]) then Some(IdParts(Payment, ts.value, parts[1]))
      else None
    else None
  }

  lemma NoUnderscoreInTimestamp(timestamp: int)
    ensures '_' !in IntToString(timestamp)
  {
    IntToStringChars(timestamp);
  }

  lemma NoUnderscoreInUnique(uuidHex: string)
    requires IsUuidHex(uuidHex)
    ensures '_' !in GenerateId(0, uuidHex).1
  {
  }

  /** Splitting a store identifier on '_' yields its prefix, timestamp and unique part. */
  lemma SplitStoreId(timestamp: int, uuidHex: string)
    requires IsUuidHex(uuidHex)
    ensures SplitOn(StoreId(timestamp, uuidHex), '_')
         == ["STR", IntToString(timestamp), uuidHex[..UniqueLength]]
  {
    var ts, u := IntToString(timestamp), uuidHex[..UniqueLength];
    NoUnderscoreInTimestamp(timestamp);
    NoUnderscoreInUnique(uuidHex);
    assert StoreId(timestamp, uuidHex) == "STR" + ['_'] + ts + ['_'] + u;
    SplitOnThree("STR", ts, u, '_');
  }

  /** Splitting a product identifier on '_' yields its prefix, timestamp and unique part. */
  lemma SplitProductId(timestamp: int, uuidHex: string)
    requires IsUuidHex(uuidHex)
    ensures SplitOn(ProductId(timestamp, uuidHex), '_')
         == ["PRD", IntToString(timestamp), uuidHex[..UniqueLength]]
  {
    var ts, u := IntToString(timestamp), uuidHex[..UniqueLength];
    NoUnderscoreInTimestamp(timestamp);
    NoUnderscoreInUnique(uuidHex);
    assert ProductId(timestamp, uuidHex) == "PRD" + ['_'] + ts + ['_'] + u;
    SplitOnThree("PRD", ts, u, '_');
  }

  /** Splitting a payment identifier on '_' yields its prefix, unique part and timestamp. */
  lemma SplitPaymentId(timestamp: int, uuidHex: string)
    requires IsUuidHex(uuidHex)
    ensures SplitOn(PaymentId(timestamp, uuidHex), '_')
         == ["PAY", uuidHex[..UniqueLength], IntToString(timestamp)]
  {
    var ts, u := IntToString(timestamp), uuidHex[..UniqueLength];
    NoUnderscoreInTimestamp(timestamp);
    NoUnderscoreInUnique(uuidHex);
    assert PaymentId(timestamp, uuidHex) == "PAY" + ['_'] + u + ['_'] + ts;
    SplitOnThree("PAY", u, ts, '_');
  }

  /** Every generated identifier parses back to the kind, timestamp and unique part it was built from. */
  lemma ParseGeneratedIds(timestamp: int, uuidHex: string)
    requires IsUuidHex(uuidHex)
    ensures ParseId(StoreId(timestamp, uuidHex)) == Some(IdParts(Store, timestamp, uuidHex[..UniqueLength]))
    ensures ParseId(ProductId(timestamp, uuidHex)) == Some(IdParts(Product, timestamp, uuidHex[..UniqueLength]))
    ensures ParseId(PaymentId(timestamp, uuidHex)) == Some(IdParts(Payment, timestamp, uuidHex[..UniqueLength]))
  {
    SplitStoreId(timestamp, uuidHex);
    SplitProductId(timestamp, uuidHex);
    SplitPaymentId(timestamp, uuidHex);
    ParseIntToString(timestamp);
  }

  /** Identifiers of different kinds never coincide, and each kind determines its inputs' visible parts. */
  lemma GeneratedIdsAreDistinct(t1: int, h1: string, t2: int, h2: string)
    requires IsUuidHex(h1) && IsUuidHex(h2)
    ensures StoreId(t1, h1) != ProductId(t2, h2)
    ensures StoreId(t1, h1) != PaymentId(t2, h2)
    ensures ProductId(t1, h1) != PaymentId(t2, h2)
    ensures StoreId(t1, h1) == StoreId(t2, h2) <==> t1 == t2 && h1[..UniqueLength] == h2[..UniqueLength]
    ensures ProductId(t1, h1) == ProductId(t2, h2) <==> t1 == t2 && h1[..UniqueLength] == h2[..UniqueLength]
    ensures PaymentId(t1, h1) == PaymentId(t2, h2) <==> t1 == t2 && h1[..UniqueLength] == h2[..UniqueLength]
  {
    ParseGeneratedIds(t1, h1);
    ParseGeneratedIds(t2, h2);
  }
}
