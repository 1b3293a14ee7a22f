/**
  Global ids: `v1:<type>:<id>` in unpadded base64url. Decoding runs through lenient stages (UTF-8,
  a split, a type name and an `i64` parse) and ends by comparing with the canonical encoding.
 */
module GlobalId {
  import opened Decimal
  import opened Base64Url

  const VERSION := "v1"

  datatype GlobalIdType =
    | PlaidItem | SimpleFinConnection | Asset | Account | Connection | Owner | RecurringCharge
    | User | Budget | Category | CategoryGroup | Rule | Tag | Transaction
    | BalanceSnapshotReview | AccountSnapshot | SimpleFinAccessToken

  datatype GlobalId = GlobalId(typ: GlobalIdType, id: I64)

  datatype Error = InvalidGlobalId | WrongType(actual: GlobalIdType, expected: GlobalIdType)

  datatype Result<+T> = Ok(value: T) | Err(error: Error)

  function TypeName(t: GlobalIdType): string {
    match t
    case PlaidItem => "PlaidItem"
    case SimpleFinConnection => "SimpleFinConnection"
    case Asset => "Asset"
    case Account => "Account"
    case Connection => "Connection"
    case Owner => "Owner"
    case RecurringCharge => "RecurringCharge"
    case User => "User"
    case Budget => "Budget"
    case Category => "Category"
    case CategoryGroup => "CategoryGroup"
    case Rule => "Rule"
    case Tag => "Tag"
    case Transaction => "Transaction"
    case BalanceSnapshotReview => "BalanceSnapshotReview"
    case AccountSnapshot => "AccountSnapshot"
    case SimpleFinAccessToken => "SimpleFinAccessToken"
  }

  const TYPES := [
    PlaidItem, SimpleFinConnection, Asset, Account, Connection, Owner, RecurringCharge,
    User, Budget, Category, CategoryGroup, Rule, Tag, Transaction,
    BalanceSnapshotReview, AccountSnapshot, SimpleFinAccessToken]

  /** The variant with this exact name; names are tried in declaration order. */
  function ParseTypeFrom(name: string, types: seq<GlobalIdType>): (r: Option<GlobalIdType>) {
    if types == [] then None
    else if TypeName(types[0]) == name then Some(types[0])
    else ParseTypeFrom(name, types[1..])
  }

  function ParseType(name: string): Option<GlobalIdType> {
    ParseTypeFrom(name, TYPES)
  }

  predicate Continues(b: seq<Byte>, from: nat, count: nat) {
    from + count <= |b| && forall i :: from <= i < from + count ==> 0x80 <= b[i] <= 0xBF
  }

  /** Well-formed UTF-8, by Table 3-7 of the Unicode Standard. */
  predicate IsUtf8(b: seq<Byte>) {
    if b == [] then true
    else if b[0] <= 0x7F then IsUtf8(b[1..])
    else if 0xC2 <= b[0] <= 0xDF then Continues(b, 1, 1) && IsUtf8(b[2..])
    else if 0xE0 <= b[0] <= 0xEF then
      && Continues(b, 1, 2)
      && (b[0] == 0xE0 ==> 0xA0 <= b[1])
      && (b[0] == 0xED ==> b[1] <= 0x9F)
      && IsUtf8(b[3..])
    else if 0xF0 <= b[0] <= 0xF4 then
      && Continues(b, 1, 3)
      && (b[0] == 0xF0 ==> 0x90 <= b[1])
      && (b[0] == 0xF4 ==> b[1] <= 0x8F)
      && IsUtf8(b[4..])
    else false
  }

  function Text(b: seq<Byte>): (s: string)
    ensures |s| == |b|
  {
    seq(|b|, i requires 0 <= i < |b| => b[i] as char)
  }

  predicate IsAscii(s: string) {
    forall i :: 0 <= i < |s| ==> s[i] as int < 0x80
  }

  function Bytes(s: string): (b: seq<Byte>)
    requires IsAscii(s)
    ensures |b| == |s|
  {
    seq(|s|, i requires 0 <= i < |s| => s[i] as int)
  }

  /** The text before the first colon and the text after it. */
  function SplitOnce(s: string): Option<(string, string)> {
    if s == "" then None
    else if s[0] == ':' then Some(("", s[1..]))
    else
      match SplitOnce(s[1..])
      case None => None
      case Some((before, after)) => Some(([s[0]] + before, after))
  }

  function Versioned(typeName: string, idText: string): string {
    VERSION + ":" + typeName + ":" + idText
  }

  function EncodeVersioned(t: GlobalIdType, idText: string): string
    requires IsAscii(idText)
  {
    AsciiVersioned(t, idText);
    Base64Url.Encode(Bytes(Versioned(TypeName(t), idText)))
  }

  function Encode(g: GlobalId): string {
    AsciiPrintInt(g.id);
    EncodeVersioned(g.typ, PrintInt(g.id))
  }

  /** The stages after the UTF-8 check. */
  function ParseText(text: string): Result<GlobalId> {
    match SplitOnce(text)
    case None => Err(InvalidGlobalId)
    case Some((version, rest)) =>
      match SplitOnce(rest)
      case None => Err(InvalidGlobalId)
      case Some((typeName, idText)) =>
        if version == "" || typeName == "" || idText == "" || version != VERSION then Err(InvalidGlobalId)
        else
          match (ParseType(typeName), ParseI64(idText))
          case (Some(typ), Some(id)) => Ok(GlobalId(typ, id))
          case _ => Err(InvalidGlobalId)
  }

  /** The stages before the comparison with the canonical encoding. */
  function DecodeStages(value: string): Result<GlobalId> {
    match Base64Url.Decode(value)
    case None => Err(InvalidGlobalId)
    case Some(bytes) => if IsUtf8(bytes) then ParseText(Text(bytes)) else Err(InvalidGlobalId)
  }

  function Decode(value: string): Result<GlobalId> {
    match DecodeStages(value)
    case Err(e) => Err(e)
    case Ok(g) => if Encode(g) != value then Err(InvalidGlobalId) else Ok(g)
  }

  function IdOfType(g: GlobalId, expected: GlobalIdType): Result<I64> {
    if g.typ != expected then Err(WrongType(g.typ, expected)) else Ok(g.id)
  }

  lemma AsciiPrintInt(n: int)
    ensures IsAscii(PrintInt(n))
  {
    var digits := PrintNat(if n < 0 then -n else n);
    forall i | 0 <= i < |digits| ensures digits[i] as int < 0x80 {
      assert IsDigit(digits[i]);
    }
  }

  lemma AsciiConcat(s: string, t: string)
    requires IsAscii(s) && IsAscii(t)
    ensures IsAscii(s + t)
  {
  }

  lemma AsciiVersioned(t: GlobalIdType, idText: string)
    requires IsAscii(idText)
    ensures IsAscii(Versioned(TypeName(t), idText))
  {
    TypeNameIsPlain(t);
    AsciiConcat(VERSION, ":");
    AsciiConcat(VERSION + ":", TypeName(t));
    AsciiConcat(VERSION + ":" + TypeName(t), ":");
    AsciiConcat(VERSION + ":" + TypeName(t) + ":", idText);
  }

  lemma {:induction false} Utf8OfAscii(b: seq<Byte>)
    requires forall i :: 0 <= i < |b| ==> b[i] < 0x80
    ensures IsUtf8(b)
  {
    if b != [] {
      Utf8OfAscii(b[1..]);
    }
  }

  /** Length and first letter tell the type names apart. */
  ghost function NameKey(t: GlobalIdType): (nat, char) {
    match t
    case PlaidItem => (9, 'P')
    case SimpleFinConnection => (19, 'S')
    case Asset => (5, 'A')
    case Account => (7, 'A')
    case Connection => (10, 'C')
    case Owner => (5, 'O')
    case RecurringCharge => (15, 'R')
    case User => (4, 'U')
    case Budget => (6, 'B')
    case Category => (8, 'C')
    case CategoryGroup => (13, 'C')
    case Rule => (4, 'R')
    case Tag => (3, 'T')
    case Transaction => (11, 'T')
    case BalanceSnapshotReview => (21, 'B')
    case AccountSnapshot => (15, 'A')
    case SimpleFinAccessToken => (20, 'S')
  }

  lemma TypeNameShape(t: GlobalIdType)
    ensures TypeName(t) != "" && (|TypeName(t)|, TypeName(t)[0]) == NameKey(t)
  {
  }

  ghost predicate Plain(s: string) {
    forall i :: 0 <= i < |s| ==> s[i] as int < 0x80 && s[i] != ':'
  }

  lemma ShortNamesArePlain(t: GlobalIdType)
    requires t.PlaidItem? || t.Asset? || t.Account? || t.Connection? || t.Owner? || t.User? || t.Budget? ||
             t.Category? || t.Rule? || t.Tag?
    ensures Plain(TypeName(t))
  {
    match t
    case PlaidItem =>
    case Asset =>
    case Account =>
    case Connection =>
    case Owner =>
    case User =>
    case Budget =>
    case Category =>
    case Rule =>
    case Tag =>
  }

  lemma LongNamesArePlain(t: GlobalIdType)
    requires t.BalanceSnapshotReview? || t.AccountSnapshot? || t.SimpleFinAccessToken?
    ensures Plain(TypeName(t))
  {
    match t
    case BalanceSnapshotReview =>
    case AccountSnapshot =>
    case SimpleFinAccessToken =>
  }

  lemma TypeNameIsPlain(t: GlobalIdType)
    ensures Plain(TypeName(t))
  {
    match t
    case SimpleFinConnection =>
    case RecurringCharge =>
    case CategoryGroup =>
    case Transaction =>
    case BalanceSnapshotReview => LongNamesArePlain(t);
    case AccountSnapshot => LongNamesArePlain(t);
    case SimpleFinAccessToken => LongNamesArePlain(t);
    case _ => ShortNamesArePlain(t);
  }

  lemma TypeNameIsInjective(t: GlobalIdType, u: GlobalIdType)
    requires TypeName(t) == TypeName(u)
    ensures t == u
  {
    TypeNameShape(t);
    TypeNameShape(u);
    assert NameKey(t) == NameKey(u);
  }

  lemma {:induction false} ParseTypeFindsName(t: GlobalIdType, types: seq<GlobalIdType>)
    requires t in types
    ensures ParseTypeFrom(TypeName(t), types) == Some(t)
  {
    if TypeName(types[0]) == TypeName(t) {
      TypeNameIsInjective(types[0], t);
    } else {
      ParseTypeFindsName(t, types[1..]);
    }
  }

  lemma ParseTypeRoundTrip(t: GlobalIdType)
    ensures ParseType(TypeName(t)) == Some(t)
  {
    assert t in TYPES;
    ParseTypeFindsName(t, TYPES);
  }

  lemma {:induction false} SplitOnceAt(before: string, after: string)
    requires ':' !in before
    ensures SplitOnce(before + ":" + after) == Some((before, after))
  {
    var s := before + ":" + after;
    if before == "" {
      assert s[1..] == after;
    } else {
      assert s[1..] == before[1..] + ":" + after;
      SplitOnceAt(before[1..], after);
      assert before[0] in before && before == [before[0]] + before[1..];
    }
  }

  lemma SplitVersioned(typeName: string, idText: string)
    requires ':' !in typeName
    ensures var rest := typeName + ":" + idText;
            && SplitOnce(Versioned(typeName, idText)) == Some((VERSION, rest))
            && SplitOnce(rest) == Some((typeName, idText))
  {
    var rest := typeName + ":" + idText;
    assert Versioned(typeName, idText) == VERSION + ":" + rest;
    SplitOnceAt(VERSION, rest);
    SplitOnceAt(typeName, idText);
  }

  lemma DecodedAscii(text: string)
    requires IsAscii(text)
    ensures Base64Url.Decode(Base64Url.Encode(Bytes(text))) == Some(Bytes(text))
    ensures IsUtf8(Bytes(text)) && Text(Bytes(text)) == text
  {
    DecodeOfEncode(Bytes(text));
    Utf8OfAscii(Bytes(text));
    assert Text(Bytes(text)) == text;
  }

  /** What the stages make of any well-typed text: the id part may be spelled in every way `i64` accepts. */
  lemma StagesOfVersioned(t: GlobalIdType, idText: string)
    requires IsAscii(idText)
    ensures DecodeStages(EncodeVersioned(t, idText)) ==
            match ParseI64(idText) case Some(id) => Ok(GlobalId(t, id)) case None => Err(InvalidGlobalId)
  {
    AsciiVersioned(t, idText);
    DecodedAscii(Versioned(TypeName(t), idText));
    TypeNameIsPlain(t);
    SplitVersioned(TypeName(t), idText);
    TypeNameShape(t);
    ParseTypeRoundTrip(t);
  }

  lemma {:induction false} SplitOnceIsSound(s: string)
    ensures SplitOnce(s).Some? ==> s == SplitOnce(s).value.0 + ":" + SplitOnce(s).value.1
  {
    if s != "" && s[0] != ':' {
      SplitOnceIsSound(s[1..]);
      assert s == [s[0]] + s[1..];
    }
  }

  lemma {:induction false} ParseTypeIsSound(name: string, types: seq<GlobalIdType>)
    ensures var t := ParseTypeFrom(name, types);
            t.Some? ==> TypeName(t.value) == name
  {
    if types != [] {
      ParseTypeIsSound(name, types[1..]);
    }
  }

  /** A text that encodes this type and some spelling of this id. */
  ghost predicate Spells(value: string, g: GlobalId, idText: string) {
    IsAscii(idText) && value == EncodeVersioned(g.typ, idText) && ParseI64(idText) == Some(g.id)
  }

  lemma AcceptedText(text: string) returns (typeName: string, idText: string)
    requires ParseText(text).Ok?
    ensures text == Versioned(typeName, idText)
    ensures ParseType(typeName).Some? && ParseI64(idText).Some?
    ensures ParseText(text) == Ok(GlobalId(ParseType(typeName).value, ParseI64(idText).value))
  {
    var rest := SplitOnce(text).value.1;
    SplitOnceIsSound(text);
    SplitOnceIsSound(rest);
    typeName, idText := SplitOnce(rest).value.0, SplitOnce(rest).value.1;
    assert text == VERSION + ":" + (typeName + ":" + idText) == Versioned(typeName, idText);
  }

  lemma StagesAcceptSpellings(value: string, g: GlobalId) returns (idText: string)
    requires DecodeStages(value) == Ok(g)
    ensures Spells(value, g, idText)
  {
    EncodeOfDecode(value);
    var bytes := Base64Url.Decode(value).value;
    var typeName;
    typeName, idText := AcceptedText(Text(bytes));
    ParseTypeIsSound(typeName, TYPES);
    AcceptedI64(idText);
    AsciiVersioned(g.typ, idText);
    assert Bytes(Text(bytes)) == bytes;
  }

  /** The stages accept exactly the texts that spell the id in a way that the `i64` parser accepts. */
  lemma StagesAcceptIff(value: string, g: GlobalId)
    ensures DecodeStages(value) == Ok(g) <==> exists idText :: Spells(value, g, idText)
  {
    if DecodeStages(value) == Ok(g) {
      var idText := StagesAcceptSpellings(value, g);
    }
    if idText :| Spells(value, g, idText) {
      StagesOfVersioned(g.typ, idText);
    }
  }

  lemma StagesOfEncode(g: GlobalId)
    ensures DecodeStages(Encode(g)) == Ok(g)
  {
    AsciiPrintInt(g.id);
    StagesOfVersioned(g.typ, PrintInt(g.id));
    ParsePrintI64(g.id);
  }

  // ----- Which text an encoding is

  /** The names of the types in their order. */
  const TYPE_NAMES := [
    "PlaidItem", "SimpleFinConnection", "Asset", "Account", "Connection", "Owner", "RecurringCharge",
    "User", "Budget", "Category", "CategoryGroup", "Rule", "Tag", "Transaction",
    "BalanceSnapshotReview", "AccountSnapshot", "SimpleFinAccessToken"]

  lemma TypesAreNamed(i: nat)
    requires i < |TYPES|
    ensures |TYPE_NAMES| == |TYPES| && TypeName(TYPES[i]) == TYPE_NAMES[i]
  {
  }

  lemma TypesAreAll(t: GlobalIdType) returns (i: nat)
    ensures i < |TYPES| && TYPES[i] == t
  {
    assert t in TYPES;
    i :| 0 <= i < |TYPES| && TYPES[i] == t;
  }

  /** The id is the base64url text of the version, the name of the type and the decimal number. */
  lemma EncodingIsText(i: nat, id: I64)
    requires i < |TYPES|
    ensures |TYPE_NAMES| == |TYPES|
    ensures var text := "v1:" + TYPE_NAMES[i] + ":" + PrintInt(id);
            IsAscii(text) && Encode(GlobalId(TYPES[i], id)) == Base64Url.Encode(Bytes(text))
  {
    TypesAreNamed(i);
    AsciiPrintInt(id);
    AsciiVersioned(TYPES[i], PrintInt(id));
    assert "v1:" + TYPE_NAMES[i] + ":" + PrintInt(id) == Versioned(TypeName(TYPES[i]), PrintInt(id));
  }

  /** The digits of a number, as symbols. */
  lemma DigitsAre(n: nat, w: Sextet, x: Sextet, y: Sextet, z: Sextet)
    requires n == 262_144 * w as int + 4096 * x as int + 64 * y as int + z as int && n < 0x100_0000
    ensures FourDigits(n) == [Symbol(w), Symbol(x), Symbol(y), Symbol(z)]
  {
    DigitsOf(n, w, x, y, z);
    SymbolsAreAlphabet(w);
    SymbolsAreAlphabet(x);
    SymbolsAreAlphabet(y);
    SymbolsAreAlphabet(z);
  }

  const ACCOUNT_ONE: seq<Byte> := [118, 49, 58, 65, 99, 99, 111, 117, 110, 116, 58, 49]

  lemma TextOfGroup(x: Byte, y: Byte, z: Byte, b: seq<Byte>)
    ensures TextOf([x, y, z] + b) == FourDigits(Number(x, y, z)) + TextOf(b)
  {
    assert ([x, y, z] + b)[3..] == b;
  }

  lemma TextOfAccountOne()
    ensures TextOf(ACCOUNT_ONE) == "djE6" + ("QWNj" + ("b3Vu" + ("dDox" + "")))
  {
    var last: seq<Byte> := [116, 58, 49] + [];
    var third: seq<Byte> := [111, 117, 110] + last;
    var second: seq<Byte> := [65, 99, 99] + third;
    TextOfGroup(116, 58, 49, []);
    TextOfGroup(111, 117, 110, last);
    TextOfGroup(65, 99, 99, third);
    TextOfGroup(118, 49, 58, second);
    GroupsOfAccountOne();
    assert ACCOUNT_ONE == [118, 49, 58] + second;
  }

  lemma GroupsOfAccountOne()
    ensures FourDigits(Number(118, 49, 58)) == "djE6" && FourDigits(Number(65, 99, 99)) == "QWNj"
    ensures FourDigits(Number(111, 117, 110)) == "b3Vu" && FourDigits(Number(116, 58, 49)) == "dDox"
  {
    DigitsAre(7_745_850, 29, 35, 4, 58);
    DigitsAre(4_285_283, 16, 22, 13, 35);
    DigitsAre(7_304_558, 27, 55, 21, 46);
    DigitsAre(7_617_073, 29, 3, 40, 49);
  }

  lemma BytesOfAccountOne(g: GlobalId)
    requires g == GlobalId(Account, 1)
    ensures Encode(g) == Base64Url.Encode(ACCOUNT_ONE)
  {
    AsciiPrintInt(g.id);
    AsciiVersioned(g.typ, PrintInt(g.id));
    assert PrintInt(1) == "1";
    var text := Versioned(TypeName(Account), "1");
    assert text == "v1:Account:1";
    assert Bytes(text) == ACCOUNT_ONE;
  }

  const ACCOUNT_ONE_TEXT := "djE6QWNjb3VudDox"

  lemma GroupsOfAccountOneText()
    ensures "djE6" + ("QWNj" + ("b3Vu" + ("dDox" + ""))) == ACCOUNT_ONE_TEXT
  {
  }

  /** The text of account 1. */
  lemma AccountOne(g: GlobalId)
    requires g == GlobalId(Account, 1)
    ensures Encode(g) == ACCOUNT_ONE_TEXT && Decode(ACCOUNT_ONE_TEXT) == Ok(g)
  {
    BytesOfAccountOne(g);
    EncodingIsTextOf(ACCOUNT_ONE);
    TextOfAccountOne();
    GroupsOfAccountOneText();
    DecodeIffEncoding(ACCOUNT_ONE_TEXT, g);
  }

  /** A text decodes to an id exactly when it is that id's encoding. */
  lemma DecodeIffEncoding(value: string, g: GlobalId)
    ensures Decode(value) == Ok(g) <==> value == Encode(g)
  {
    StagesOfEncode(g);
  }

  lemma EncodeIsInjective(g: GlobalId, h: GlobalId)
    requires Encode(g) == Encode(h)
    ensures g == h
  {
    DecodeIffEncoding(Encode(g), g);
    DecodeIffEncoding(Encode(g), h);
  }

  lemma AsciiZeroPadded(n: I64)
    ensures IsAscii(ZeroPadded(n))
  {
    ParseZeroPadded(n);
    AcceptedI64(ZeroPadded(n));
  }

  /** A second spelling of an id: a zero after the sign. */
  function PaddedSpelling(g: GlobalId): string {
    AsciiZeroPadded(g.id);
    EncodeVersioned(g.typ, ZeroPadded(g.id))
  }

  lemma LongerTextDiffers(s: string, t: string)
    requires IsAscii(s) && IsAscii(t) && |s| != |t|
    ensures Base64Url.Encode(Bytes(s)) != Base64Url.Encode(Bytes(t))
  {
    DecodedAscii(s);
    DecodedAscii(t);
  }

  /**
    The comparison is what makes the code canonical: without it every id has a second accepted text,
    and with it that text is refused.
   */
  lemma ComparisonIsNeeded(g: GlobalId)
    ensures PaddedSpelling(g) != Encode(g)
    ensures DecodeStages(PaddedSpelling(g)) == Ok(g) && Decode(PaddedSpelling(g)) == Err(InvalidGlobalId)
  {
    AsciiPrintInt(g.id);
    AsciiZeroPadded(g.id);
    ParseZeroPadded(g.id);
    ZeroPaddedIsLonger(g.id);
    StagesOfVersioned(g.typ, ZeroPadded(g.id));
    AsciiVersioned(g.typ, ZeroPadded(g.id));
    AsciiVersioned(g.typ, PrintInt(g.id));
    LongerTextDiffers(Versioned(TypeName(g.typ), PrintInt(g.id)), Versioned(TypeName(g.typ), ZeroPadded(g.id)));
  }

  /** `collect` of the per-id checks: the first failing id decides the error. */
  function LocalIdsOfType(ids: seq<GlobalId>, expected: GlobalIdType): Result<seq<I64>> {
    if ids == [] then Ok([])
    else
      match IdOfType(ids[0], expected)
      case Err(e) => Err(e)
      case Ok(id) =>
        match LocalIdsOfType(ids[1..], expected)
        case Err(e) => Err(e)
        case Ok(rest) => Ok([id] + rest)
  }

  /** All or nothing: the local ids in order when every type matches. */
  lemma {:induction false} LocalIdsOfMatching(ids: seq<GlobalId>, expected: GlobalIdType)
    requires forall i :: 0 <= i < |ids| ==> ids[i].typ == expected
    ensures var r := LocalIdsOfType(ids, expected);
            r.Ok? && |r.value| == |ids| && forall i :: 0 <= i < |ids| ==> r.value[i] == ids[i].id
  {
    if ids != [] {
      LocalIdsOfMatching(ids[1..], expected);
    }
  }

  /** Otherwise the type of the first id that does not match. */
  lemma {:induction false} LocalIdsFirstError(ids: seq<GlobalId>, expected: GlobalIdType, k: nat)
    requires k < |ids| && ids[k].typ != expected
    requires forall i :: 0 <= i < k ==> ids[i].typ == expected
    ensures LocalIdsOfType(ids, expected) == Err(WrongType(ids[k].typ, expected))
  {
    if k > 0 {
      LocalIdsFirstError(ids[1..], expected, k - 1);
    }
  }
}
