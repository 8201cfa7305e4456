/**
  Customer records and `generate_customer`. A record is a flat map from
  field names to text; the values the fake-data provider supplies (names,
  addresses, formatted dates, ...) are opaque strings in a `CustomerDraw`.
 */
module Records {
  import opened Text
  import opened Wrappers

  /**
    The columns of a record. `Other` is any further column a prior output
    file may carry; every column name is one of these.
   */
  datatype Field =
    | CustomerId | FirstName | LastName | FullName | Email | PhoneNumber
    | AddressLine1 | AddressLine2 | City | State | PostalCode | Country
    | DateOfBirth | RegistrationDate | LastPurchaseDate | TotalOrders
    | TotalSpent | PreferredCategory | SourceSystem | CanonicalId
    | Other(name: string)

  type Record = map<Field, string>

  /** The column's name in the CSV header. */
  function FieldName(f: Field): string {
    match f
    case CustomerId => "customer_id"
    case FirstName => "first_name"
    case LastName => "last_name"
    case FullName => "full_name"
    case Email => "email"
    case PhoneNumber => "phone_number"
    case AddressLine1 => "address_line1"
    case AddressLine2 => "address_line2"
    case City => "city"
    case State => "state"
    case PostalCode => "postal_code"
    case Country => "country"
    case DateOfBirth => "date_of_birth"
    case RegistrationDate => "registration_date"
    case LastPurchaseDate => "last_purchase_date"
    case TotalOrders => "total_orders"
    case TotalSpent => "total_spent"
    case PreferredCategory => "preferred_category"
    case SourceSystem => "source_system"
    case CanonicalId => "canonical_id"
    case Other(name) => name
  }

  /** The header names of the twenty named columns. */
  const COLUMN_NAMES: set<string> := {
    "customer_id", "first_name", "last_name", "full_name", "email", "phone_number",
    "address_line1", "address_line2", "city", "state", "postal_code", "country",
    "date_of_birth", "registration_date", "last_purchase_date", "total_orders",
    "total_spent", "preferred_category", "source_system", "canonical_id"
  }

  /** A column as read from a header: a further column never reuses a named column's name. */
  predicate IsHeaderColumn(f: Field) {
    f.Other? ==> f.name !in COLUMN_NAMES
  }

  /** Header columns are told apart by their names, so a header fixes its columns. */
  lemma FieldNameInjective(a: Field, b: Field)
    requires IsHeaderColumn(a) && IsHeaderColumn(b) && FieldName(a) == FieldName(b)
    ensures a == b
  {
    assert !a.Other? ==> FieldName(a) in COLUMN_NAMES;
    assert !b.Other? ==> FieldName(b) in COLUMN_NAMES;
  }

  const SOURCES: seq<string> :=
    ["CRM", "ECommerce_Web", "Mobile_App", "Marketing_Platform", "Payment_System"]
  const CATEGORIES: seq<string> :=
    ["Electronics", "Fashion", "Home & Kitchen", "Books", "Health", "Beauty", "Sports", "Toys"]

  /** A draw of `random.choice(SOURCES)`, as an index. */
  type SourceChoice = i: nat | i < 5
  /** A draw of `random.choice(CATEGORIES)`, as an index. */
  type CategoryChoice = i: nat | i < 8
  /** A draw of `random.randint(0, 200)`. */
  type OrderCount = n: nat | n <= 200

  predicate IsHexText(s: string) {
    forall i :: 0 <= i < |s| ==> IsHexDigit(s[i])
  }

  /** The 32 lower-case hexadecimal digits of `uuid.uuid4().hex`. */
  type UuidHex = s: string | |s| == 32 && IsHexText(s)
    witness "00000000000000000000000000000000"

  /** A row identifier: `<source>_` followed by eight hexadecimal digits. */
  predicate IsRowId(id: string, source: string) {
    |id| == |source| + 9 && id[..|source| + 1] == source + "_" && IsHexText(id[|source| + 1..])
  }

  /** `f"{source}_{uuid.uuid4().hex[:8]}"` */
  function RowId(source: string, u: UuidHex): (id: string)
    ensures IsRowId(id, source)
  {
    var id := source + "_" + u[..8];
    assert id[..|source| + 1] == source + "_";
    assert id[|source| + 1..] == u[..8];
    id
  }

  /**
    Everything `generate_customer` takes from the provider and from the
    random module. `None` stands for the draws that leave a field blank.
   */
  datatype CustomerDraw = CustomerDraw(
    firstName: string,
    lastName: string,
    emailDomain: string,
    registration: string,            // random_date(): a formatted date
    lastPurchase: Option<string>,    // None when random.random() >= 0.8, else a fresh random_date()
    idUuid: UuidHex,
    phone: Option<string>,
    street: string,
    secondary: Option<string>,
    city: string,
    state: string,
    postcode: string,
    country: string,
    dateOfBirth: Option<string>,     // the formatted date, None when blank
    totalOrders: OrderCount,
    totalSpent: string,              // the rounded float, as text
    category: CategoryChoice,
    keyUuid: UuidHex)

  function OrBlank(o: Option<string>): string {
    if o.Some? then o.value else ""
  }

  function DigitChar(d: nat): (c: char)
    requires d < 10
    ensures '0' <= c <= '9' && c as int - '0' as int == d
  {
    ('0' as int + d) as char
  }

  /** `str(n)` for a non-negative integer. */
  function Decimal(n: nat): (r: string)
    ensures r != [] && forall i :: 0 <= i < |r| ==> '0' <= r[i] <= '9'
    ensures r[0] == '0' ==> n == 0 && r == "0"
    decreases n
  {
    if n < 10 then [DigitChar(n)] else Decimal(n / 10) + [DigitChar(n % 10)]
  }

  /** The value of a string of decimal digits. */
  function DecimalValue(s: string): int
    decreases |s|
  {
    if s == [] then 0 else 10 * DecimalValue(s[..|s| - 1]) + (s[|s| - 1] as int - '0' as int)
  }

  /** The decimal text written for a number reads back as that number. */
  lemma {:induction false} DecimalRoundTrip(n: nat)
    ensures DecimalValue(Decimal(n)) == n
    decreases n
  {
    if n >= 10 {
      DecimalRoundTrip(n / 10);
      var r := Decimal(n);
      assert r[..|r| - 1] == Decimal(n / 10);
    }
  }

  /** `canonical_id or uuid.uuid4().hex[:12]`: a missing or empty key is replaced. */
  function CanonicalKey(canonicalId: Option<string>, keyUuid: UuidHex): (k: string)
    ensures k != ""
    ensures canonicalId.Some? && canonicalId.value != "" ==> k == canonicalId.value
    ensures !(canonicalId.Some? && canonicalId.value != "") ==> |k| == 12 && IsHexText(k)
  {
    if canonicalId.Some? && canonicalId.value != "" then canonicalId.value else keyUuid[..12]
  }

  /** `first.last@domain` with both names lower-cased. */
  function EmailFor(first: string, last: string, domain: string): string {
    Lower(first) + "." + Lower(last) + "@" + domain
  }

  /** Column `f` is present and holds `v`. */
  predicate Holds(r: Record, f: Field, v: string) {
    f in r && r[f] == v
  }

  /**
    The fifteen columns `generate_customer` takes from the provider and the
    draws: names, address parts and country unchanged; phone, second
    address line and birth date the provider's value or blank; the
    registration date; a last purchase date that is blank or the fresh
    date, and the fresh date whenever one was drawn; the order count in
    decimal; the amount spent; one of the eight categories.
   */
  predicate HasProvidedValues(r: Record, d: CustomerDraw) {
    HasProviderText(r, d) && HasOptionalValues(r, d) && HasDrawnValues(r, d)
  }

  /** The provider's names, address parts and country, uncorrupted. */
  predicate HasProviderText(r: Record, d: CustomerDraw) {
    && Holds(r, FirstName, d.firstName) && Holds(r, LastName, d.lastName)
    && Holds(r, AddressLine1, d.street) && Holds(r, City, d.city) && Holds(r, State, d.state)
    && Holds(r, PostalCode, d.postcode) && Holds(r, Country, d.country)
  }

  /** The columns that may be blank, and the registration date the last purchase depends on. */
  predicate HasOptionalValues(r: Record, d: CustomerDraw) {
    && Holds(r, PhoneNumber, OrBlank(d.phone))
    && Holds(r, AddressLine2, OrBlank(d.secondary))
    && Holds(r, DateOfBirth, OrBlank(d.dateOfBirth))
    && Holds(r, RegistrationDate, d.registration)
    && LastPurchaseDate in r
    && (r[LastPurchaseDate] == "" || (d.lastPurchase.Some? && r[LastPurchaseDate] == d.lastPurchase.value))
    && (d.lastPurchase.Some? && d.registration != "" ==> r[LastPurchaseDate] == d.lastPurchase.value)
  }

  /** The drawn order count in decimal, the amount spent, and one of the eight categories. */
  predicate HasDrawnValues(r: Record, d: CustomerDraw) {
    && Holds(r, TotalOrders, Decimal(d.totalOrders)) && Holds(r, TotalSpent, d.totalSpent)
    && Holds(r, PreferredCategory, CATEGORIES[d.category]) && r[PreferredCategory] in CATEGORIES
  }

  /** A record that agrees with `p` on `p`'s columns has `p`'s provided values. */
  lemma AgreeKeepsProvided(p: Record, r: Record, d: CustomerDraw)
    requires HasProvidedValues(p, d)
    requires forall f :: f in p ==> f in r && r[f] == p[f]
    ensures HasProvidedValues(r, d)
  {}

  /** The fifteen columns copied from the provider's values and the random draws. */
  function ProvidedColumns(d: CustomerDraw): (r: Record)
    ensures forall f :: f in r <==> !f.Other? && f !in {CustomerId, FullName, Email, SourceSystem, CanonicalId}
  {
    map[
      FirstName := d.firstName,
      LastName := d.lastName,
      PhoneNumber := OrBlank(d.phone),
      AddressLine1 := d.street,
      AddressLine2 := OrBlank(d.secondary),
      City := d.city,
      State := d.state,
      PostalCode := d.postcode,
      Country := d.country,
      DateOfBirth := OrBlank(d.dateOfBirth),
      RegistrationDate := d.registration,
      // reg_date if random.random() < 0.8 else "", re-rolled as a fresh date when non-empty
      LastPurchaseDate :=
        if d.lastPurchase.Some? && d.registration != "" then d.lastPurchase.value else "",
      TotalOrders := Decimal(d.totalOrders),
      TotalSpent := d.totalSpent,
      PreferredCategory := CATEGORIES[d.category]
    ]
  }

  /** The provider's values and the draws land in their columns. */
  lemma ProvidedColumnsValues(d: CustomerDraw)
    ensures HasProvidedValues(ProvidedColumns(d), d)
  {
    ProvidedText(d);
    ProvidedOptional(d);
    ProvidedDrawn(d);
  }

  lemma ProvidedText(d: CustomerDraw)
    ensures HasProviderText(ProvidedColumns(d), d)
  {}

  lemma ProvidedOptional(d: CustomerDraw)
    ensures HasOptionalValues(ProvidedColumns(d), d)
  {}

  lemma ProvidedDrawn(d: CustomerDraw)
    ensures HasDrawnValues(ProvidedColumns(d), d)
  {}

  /**
    What `generate_customer` promises of its record: exactly the twenty
    named columns; the fifteen provided values; `full_name` as "first last" and the lower-cased
    `first.last@domain` email, both of the record's own name columns;
    a row identifier embedding the source label, that label as
    `source_system`, and the supplied canonical key or a fresh one.
   */
  ghost predicate IsCustomerRecord(r: Record, source: string, canonicalId: Option<string>, d: CustomerDraw) {
    && (forall f :: f in r <==> !f.Other?)
    && HasProvidedValues(r, d)
    && HasDerivedValues(r, source, canonicalId, d)
    && r[FullName] == r[FirstName] + " " + r[LastName]
    && r[Email] == EmailFor(r[FirstName], r[LastName], d.emailDomain)
  }

  /**
    The five columns `generate_customer` fills itself: `full_name`, the
    email, a row identifier under the source label, that label, and the
    canonical key.
   */
  ghost predicate HasDerivedValues(r: Record, source: string, canonicalId: Option<string>, d: CustomerDraw) {
    && Holds(r, FullName, d.firstName + " " + d.lastName)
    && Holds(r, Email, EmailFor(d.firstName, d.lastName, d.emailDomain))
    && CustomerId in r && IsRowId(r[CustomerId], source)
    && Holds(r, SourceSystem, source)
    && Holds(r, CanonicalId, CanonicalKey(canonicalId, d.keyUuid))
  }

  /** `generate_customer(source, canonical_id)` */
  function GenerateCustomer(source: string, canonicalId: Option<string>, d: CustomerDraw): Record {
    ProvidedColumns(d)
      [CustomerId := RowId(source, d.idUuid)]
      [FullName := d.firstName + " " + d.lastName]
      [Email := EmailFor(d.firstName, d.lastName, d.emailDomain)]
      [SourceSystem := source]
      [CanonicalId := CanonicalKey(canonicalId, d.keyUuid)]
  }

  /** The record `generate_customer` builds has every promised column and value. */
  lemma GenerateCustomerIsCustomerRecord(source: string, canonicalId: Option<string>, d: CustomerDraw)
    ensures IsCustomerRecord(GenerateCustomer(source, canonicalId, d), source, canonicalId, d)
  {
    GenerateCustomerDerived(source, canonicalId, d);
    GenerateCustomerProvided(source, canonicalId, d);
    AssembleCustomerRecord(GenerateCustomer(source, canonicalId, d), source, canonicalId, d);
  }

  /** The twenty columns, and the ones `generate_customer` fills itself. */
  lemma GenerateCustomerDerived(source: string, canonicalId: Option<string>, d: CustomerDraw)
    ensures var r := GenerateCustomer(source, canonicalId, d);
            (forall f :: f in r <==> !f.Other?) && HasDerivedValues(r, source, canonicalId, d)
  {}

  /** With the provided names in place, the derived columns agree with the record's own names. */
  lemma AssembleCustomerRecord(r: Record, source: string, canonicalId: Option<string>, d: CustomerDraw)
    requires forall f :: f in r <==> !f.Other?
    requires HasProvidedValues(r, d) && HasDerivedValues(r, source, canonicalId, d)
    ensures IsCustomerRecord(r, source, canonicalId, d)
  {}

  /** The five derived columns leave the fifteen provided values in place. */
  lemma GenerateCustomerProvided(source: string, canonicalId: Option<string>, d: CustomerDraw)
    ensures HasProvidedValues(GenerateCustomer(source, canonicalId, d), d)
  {
    GenerateCustomerAgrees(source, canonicalId, d);
    ProvidedColumnsValues(d);
    AgreeKeepsProvided(ProvidedColumns(d), GenerateCustomer(source, canonicalId, d), d);
  }

  /** `generate_customer` keeps every provided column of `ProvidedColumns`. */
  lemma GenerateCustomerAgrees(source: string, canonicalId: Option<string>, d: CustomerDraw)
    ensures var p, r := ProvidedColumns(d), GenerateCustomer(source, canonicalId, d);
            forall f :: f in p ==> f in r && r[f] == p[f]
  {}
}
