/**
  `add_variation`: a fuzzy duplicate of a record. The copy gets exactly one
  of six field corruptions, a new row identifier and a normalised email;
  every other column, the canonical key among them, is left as it was.
 */
module Variation {
  import opened Text
  import opened Wrappers
  import opened Corruption
  import opened Records

  /** A draw of `str(random.randint(1, 9))`. */
  type Digit = c: char | '1' <= c <= '9' witness '1'

  /** The six entries of the `variations` list, in its order. */
  datatype Rule =
    | FirstNameTypo
    | LastNameCase
    | EmailDigitTypo
    | StreetAbbreviation
    | CityTypo
    | PostalCodeTypo

  /** The column a rule rewrites. */
  function Target(rule: Rule): (f: Field)
    ensures f in {FirstName, LastName, Email, AddressLine1, City, PostalCode}
  {
    match rule
    case FirstNameTypo => FirstName
    case LastNameCase => LastName
    case EmailDigitTypo => Email
    case StreetAbbreviation => AddressLine1
    case CityTypo => City
    case PostalCodeTypo => PostalCode
  }

  /**
    The draws of one `add_variation` call: the rule, the draws that rule may
    use, and the `uuid4()` of the new row identifier.
   */
  datatype VariationDraw = VariationDraw(
    rule: Rule,
    style: CaseStyle,
    digit: Digit,
    typo: TypoDraw,
    idUuid: UuidHex)

  // ------------------------------------------------------- the email rule

  /** `email.replace("@", digit + "@")`: the same digit goes before every `@`. */
  function InsertDigitBeforeAt(email: string, digit: Digit): string {
    ReplaceAll(email, "@", [digit, '@'])
  }

  /** Every `@` gains one character in front of it. */
  lemma InsertDigitLength(email: string, digit: Digit)
    ensures |InsertDigitBeforeAt(email, digit)| == |email| + multiset(email)['@']
  {
    InsertBeforeLength(email, '@', digit);
  }

  /** An address with a single `@` gets the digit at the end of its local part. */
  lemma InsertDigitIntoAddress(local: string, domain: string, digit: Digit)
    requires '@' !in local && '@' !in domain
    ensures InsertDigitBeforeAt(local + "@" + domain, digit) == local + [digit] + "@" + domain
  {
    ReplaceCharAfterPrefix(local, "@" + domain, '@', [digit, '@']);
    var t := "@" + domain;
    assert StartsWith(t, "@") && t[1..] == domain;
    NoCharNotContained(domain, '@');
    assert local + "@" + domain == local + t;
    assert local + [digit, '@'] + domain == local + [digit] + "@" + domain;
  }

  // ----------------------------------------------------- the address rule

  /**
    Replacing "Street" by "St." never starts a match for a pattern that has
    no 'S' in it: such a prefix is in the result exactly when it is in the
    input.
   */
  lemma {:induction false} AbbreviationKeepsPrefix(v: string, q: string)
    requires 'S' !in q
    ensures StartsWith(ReplaceAll(v, "Street", "St."), q) <==> StartsWith(v, q)
    decreases |v|
  {
    var r := ReplaceAll(v, "Street", "St.");
    if q == [] {
    } else if v == [] {
    } else if StartsWith(v, "Street") {
      assert r[0] == 'S' && v[0] == 'S' && q[0] != 'S';
    } else {
      assert r == [v[0]] + ReplaceAll(v[1..], "Street", "St.");
      AbbreviationKeepsPrefix(v[1..], q[1..]);
      StartsWithCons(v[0], ReplaceAll(v[1..], "Street", "St."), q);
      StartsWithCons(v[0], v[1..], q);
      assert v == [v[0]] + v[1..];
    }
  }

  /** After the replacement no "Street" is left. */
  lemma {:induction false} NoStreetAfterReplace(s: string)
    ensures !Contains(ReplaceAll(s, "Street", "St."), "Street")
    decreases |s|
  {
    var r := ReplaceAll(s, "Street", "St.");
    if s == [] {
    } else if StartsWith(s, "Street") {
      var t := ReplaceAll(s[6..], "Street", "St.");
      NoStreetAfterReplace(s[6..]);
      assert r == ['S'] + (['t'] + (['.'] + t));
      ContainsCons('.', t, "Street");
      ContainsCons('t', ['.'] + t, "Street");
      ContainsCons('S', ['t'] + (['.'] + t), "Street");
      StartsWithCons('S', ['t'] + (['.'] + t), "Street");
      StartsWithCons('t', ['.'] + t, "treet");
      StartsWithCons('.', t, "Street");
      assert "Street"[0] == 'S' && "Street"[1..] == "treet" && "treet"[1..] == "reet";
      StartsWithCons('.', t, "reet");
    } else {
      var t := ReplaceAll(s[1..], "Street", "St.");
      NoStreetAfterReplace(s[1..]);
      assert r == [s[0]] + t;
      ContainsCons(s[0], t, "Street");
      StartsWithCons(s[0], t, "Street");
      AbbreviationKeepsPrefix(s[1..], "treet");
      StartsWithCons(s[0], s[1..], "Street");
      assert s == [s[0]] + s[1..];
    }
  }

  /**
    The address rule: every "Street" becomes "St."; the guard on "Street"
    occurring changes nothing, and no "Street" is left afterwards.
   */
  function AbbreviateStreet(address: string): (r: string)
    ensures r == ReplaceAll(address, "Street", "St.")
    ensures !Contains(r, "Street")
  {
    NoStreetAfterReplace(address);
    if Contains(address, "Street") then ReplaceAll(address, "Street", "St.") else address
  }

  /** Abbreviating twice is abbreviating once. */
  lemma AbbreviateStreetIdempotent(address: string)
    ensures AbbreviateStreet(AbbreviateStreet(address)) == AbbreviateStreet(address)
  {}

  // --------------------------------------------------------- the rules

  /** The new value a rule gives its target column. */
  function Corrupt(d: VariationDraw, value: string): string {
    match d.rule
    case FirstNameTypo => AddTypo(value, d.typo)
    case LastNameCase => RandomCaseVariation(value, d.style)
    case EmailDigitTypo => AddTypo(InsertDigitBeforeAt(value, d.digit), d.typo)
    case StreetAbbreviation => AbbreviateStreet(value)
    case CityTypo => AddTypo(value, d.typo)
    case PostalCodeTypo => AddTypo(value, d.typo)
  }

  /**
    Every corruption stays close to the value it rewrites; a typo rule
    changes a character exactly when the typo fires with a new letter.
   */
  lemma CorruptionIsSmall(d: VariationDraw, value: string)
    ensures d.rule in {FirstNameTypo, CityTypo, PostalCodeTypo} ==>
              |Corrupt(d, value)| == |value| && Distance(value, Corrupt(d, value)) <= 1
    ensures d.rule in {FirstNameTypo, CityTypo, PostalCodeTypo} ==>
              (Distance(value, Corrupt(d, value)) == 1 <==>
                 TypoFires(value, d.typo) && value[TypoPosition(value, d.typo)] != d.typo.letter)
    ensures d.rule == LastNameCase ==> Lower(Corrupt(d, value)) == Lower(value)
    ensures d.rule == EmailDigitTypo ==>
              |Corrupt(d, value)| == |value| + multiset(value)['@'] &&
              Distance(InsertDigitBeforeAt(value, d.digit), Corrupt(d, value)) <= 1
    ensures d.rule == EmailDigitTypo ==>
              var e := InsertDigitBeforeAt(value, d.digit);
              (Distance(e, Corrupt(d, value)) == 1 <==>
                 TypoFires(e, d.typo) && e[TypoPosition(e, d.typo)] != d.typo.letter)
    ensures d.rule == StreetAbbreviation ==> !Contains(Corrupt(d, value), "Street")
  {
    match d.rule
    case FirstNameTypo => TypoIsSingleEdit(value, d.typo);
    case CityTypo => TypoIsSingleEdit(value, d.typo);
    case PostalCodeTypo => TypoIsSingleEdit(value, d.typo);
    case EmailDigitTypo =>
      TypoIsSingleEdit(InsertDigitBeforeAt(value, d.digit), d.typo);
      InsertDigitLength(value, d.digit);
    case LastNameCase =>
    case StreetAbbreviation =>
  }

  // ------------------------------------------------------ normalisation

  predicate IsNormalizedEmail(e: string) {
    NoUpper(e) && Trimmed(e)
  }

  /** `email.lower().strip()` */
  function NormalizeEmail(e: string): (r: string)
    ensures IsNormalizedEmail(r)
  {
    Strip(Lower(e))
  }

  /** A normalised email is left alone by a second normalisation. */
  lemma NormalizeEmailIdempotent(e: string)
    ensures NormalizeEmail(NormalizeEmail(e)) == NormalizeEmail(e)
  {
    var n := NormalizeEmail(e);
    LowerOfLowerCase(n);
    StripOfTrimmed(n);
  }

  // ------------------------------------------------------ add_variation

  /**
    The first column `add_variation` reads that a record with these columns
    lacks, in reading order: the rule's column, then `source_system`, then
    `email`.
   */
  function MissingColumn(columns: set<Field>, rule: Rule): (m: Option<Field>)
    ensures m.None? <==> Target(rule) in columns && SourceSystem in columns && Email in columns
    ensures m.Some? ==> m.value !in columns && m.value in {Target(rule), SourceSystem, Email}
    ensures m.Some? && m.value != Target(rule) ==> Target(rule) in columns
    ensures m.Some? && m.value != Target(rule) && m.value != SourceSystem ==> SourceSystem in columns
  {
    if Target(rule) !in columns then Some(Target(rule))
    else if SourceSystem !in columns then Some(SourceSystem)
    else if Email !in columns then Some(Email)
    else None
  }

  /**
    `v` is a fuzzy duplicate of `base` under the draws `d`: the same columns
    plus `customer_id`; the rule's column rewritten; a new row identifier
    under the BASE record's source label; the email normalised; and every
    other column, `canonical_id` included, unchanged.
   */
  ghost predicate IsVariant(v: Record, base: Record, d: VariationDraw)
  {
    var target := Target(d.rule);
    && target in base && SourceSystem in base && Email in base
    && v.Keys == base.Keys + {CustomerId}
    && (forall f :: f in base && f != CustomerId && f != Email && f != target ==> v[f] == base[f])
    && (target != Email ==> v[target] == Corrupt(d, base[target]))
    && v[Email] == NormalizeEmail(if target == Email then Corrupt(d, base[Email]) else base[Email])
    && IsNormalizedEmail(v[Email])
    && v[CustomerId] == RowId(base[SourceSystem], d.idUuid)
    && IsRowId(v[CustomerId], base[SourceSystem])
  }

  /** The canonical key and the source label survive a variation. */
  lemma VariantKeepsIdentity(v: Record, base: Record, d: VariationDraw)
    requires IsVariant(v, base, d)
    ensures CanonicalId in base ==> CanonicalId in v && v[CanonicalId] == base[CanonicalId]
    ensures v[SourceSystem] == base[SourceSystem]
  {
    var t := Target(d.rule);
    assert SourceSystem != CustomerId && SourceSystem != Email && SourceSystem != t;
    if CanonicalId in base {
      assert CanonicalId != CustomerId && CanonicalId != Email && CanonicalId != t;
    }
  }

  /**
    The record `add_variation` returns, as a value: the copy after the rule's
    update, the new `customer_id` and the normalised `email`; or the
    `KeyError` of the first column it reads and the record lacks.
   */
  function Variant(record: Record, d: VariationDraw): (r: Result<Record>)
    ensures r.Failure? <==> MissingColumn(record.Keys, d.rule).Some?
    ensures r.Failure? ==> r.error == KeyError(FieldName(MissingColumn(record.Keys, d.rule).value))
  {
    var target := Target(d.rule);
    var missing := MissingColumn(record.Keys, d.rule);
    if missing.Some? then Failure(KeyError(FieldName(missing.value)))
    else
      var d1 := record[target := Corrupt(d, record[target])];
      var d2 := d1[CustomerId := RowId(d1[SourceSystem], d.idUuid)];
      Success(d2[Email := NormalizeEmail(d2[Email])])
  }

  /** A successful variation is a fuzzy duplicate of its input. */
  lemma VariantIsVariant(record: Record, d: VariationDraw)
    requires Variant(record, d).Success?
    ensures IsVariant(Variant(record, d).value, record, d)
  {
    var target := Target(d.rule);
    var d1 := record[target := Corrupt(d, record[target])];
    var d2 := d1[CustomerId := RowId(d1[SourceSystem], d.idUuid)];
    var v := d2[Email := NormalizeEmail(d2[Email])];
    assert v == Variant(record, d).value;
    assert d1[SourceSystem] == record[SourceSystem];
    assert v.Keys == record.Keys + {CustomerId};
    forall f | f in record && f != CustomerId && f != Email && f != target
      ensures v[f] == record[f]
    {}
  }

  /**
    `add_variation(record)`: copy the record, apply the drawn rule to the
    copy, then assign `customer_id` and normalise `email`. A column it reads
    and the record lacks raises `KeyError`.
   */
  method AddVariation(record: Record, d: VariationDraw) returns (res: Result<Record>)
    ensures res == Variant(record, d)
    ensures res.Success? ==> IsVariant(res.value, record, d)
  {
    var dup := record;
    var field := Target(d.rule);
    if field !in dup {
      return Failure(KeyError(FieldName(field)));
    }
    dup := dup[field := Corrupt(d, dup[field])];
    if SourceSystem !in dup {
      return Failure(KeyError(FieldName(SourceSystem)));
    }
    dup := dup[CustomerId := RowId(dup[SourceSystem], d.idUuid)];
    if Email !in dup {
      return Failure(KeyError(FieldName(Email)));
    }
    dup := dup[Email := NormalizeEmail(dup[Email])];
    VariantIsVariant(record, d);
    return Success(dup);
  }

  /**
    The new row identifier differs from the base record's when the base's
    identifier was made the same way from a uuid with a different prefix.
   */
  lemma NewRowIdDiffers(source: string, before: UuidHex, newer: UuidHex)
    requires before[..8] != newer[..8]
    ensures RowId(source, newer) != RowId(source, before)
  {
    var a, b := RowId(source, newer), RowId(source, before);
    assert a[|source| + 1..] == newer[..8];
    assert b[|source| + 1..] == before[..8];
  }

  /**
    A variant's row identifier differs from its base's when the base's
    identifier was made under its label from a uuid whose first eight
    digits differ from the variant's draw.
   */
  lemma VariantIdDiffers(v: Record, base: Record, d: VariationDraw, u: UuidHex)
    requires IsVariant(v, base, d) && CustomerId in base
    requires base[CustomerId] == RowId(base[SourceSystem], u) && u[..8] != d.idUuid[..8]
    ensures v[CustomerId] != base[CustomerId]
  {
    NewRowIdDiffers(base[SourceSystem], u, d.idUuid);
  }

  /** A record `generate_customer` made has every column `add_variation` reads. */
  lemma CustomerRecordIsReadable(source: string, canonicalId: Option<string>, c: CustomerDraw, rule: Rule)
    ensures MissingColumn(GenerateCustomer(source, canonicalId, c).Keys, rule).None?
  {
    var r := GenerateCustomer(source, canonicalId, c);
    assert !Target(rule).Other? && !SourceSystem.Other? && !Email.Other?;
  }

  /** Lower-casing neither creates nor removes an `@`. */
  lemma LowerKeepsAt(s: string)
    ensures '@' in Lower(s) <==> '@' in s
  {
    if '@' in s {
      var i :| 0 <= i < |s| && s[i] == '@';
      assert Lower(s)[i] == '@';
    }
    if '@' in Lower(s) {
      var i :| 0 <= i < |s| && Lower(s)[i] == '@';
      assert s[i] == '@';
    }
  }

  /**
    On a generated email whose names and domain hold no `@`, the email rule
    puts its digit between the last name and the `@`.
   */
  lemma DigitInCustomerEmail(first: string, last: string, domain: string, digit: Digit)
    requires '@' !in first && '@' !in last && '@' !in domain
    ensures InsertDigitBeforeAt(EmailFor(first, last, domain), digit)
         == Lower(first) + "." + Lower(last) + [digit] + "@" + domain
  {
    LowerKeepsAt(first);
    LowerKeepsAt(last);
    var local := Lower(first) + "." + Lower(last);
    assert '@' !in local;
    InsertDigitIntoAddress(local, domain, digit);
  }
}
