/** The request types of the use cases and their validation. */
module Requests {
  import opened Plates
  import opened Users

  datatype CreateUserRequest = CreateUserRequest(ext: string, name: string, phone: string, email: string)
  datatype UpsertDriverRequest = UpsertDriverRequest(phone: string, ext: string, name: string)
  datatype UpdateUserRequest = UpdateUserRequest(id: string, patch: Patch, expected: int)

  // Text rather than an enumeration: the validator is what narrows it down.
  datatype RegisterVehicleRequest = RegisterVehicleRequest(driver: string, nopol: string,
                                                           kind: string, isDefault: bool)

  // net/mail's decision whether a text is an address.
  type AddressParser = string -> bool

  predicate Space(c: char) {
    || '\U{0009}' <= c <= '\U{000D}' || c == ' ' || c == '\U{0085}' || c == '\U{00A0}'
    || c == '\U{1680}' || '\U{2000}' <= c <= '\U{200A}' || c == '\U{2028}' || c == '\U{2029}'
    || c == '\U{202F}' || c == '\U{205F}' || c == '\U{3000}'
  }

  // strings.TrimSpace(value) == ""
  predicate Blank(value: string) {
    forall c <- value :: Space(c)
  }

  // ^\+[1-9]\d{7,14}$
  predicate E164(s: string) {
    && 9 <= |s| <= 16 && s[0] == '+' && '1' <= s[1] <= '9'
    && forall i | 2 <= i < |s| :: Digit(s[i])
  }

  predicate PhoneOk(phone: string) {
    phone == "" || E164(phone)
  }

  predicate EmailOk(parses: AddressParser, email: string) {
    email == "" || parses(email)
  }

  predicate ValidCreate(parses: AddressParser, r: CreateUserRequest) {
    !Blank(r.ext) && !Blank(r.name) && PhoneOk(r.phone) && EmailOk(parses, r.email)
  }

  predicate ValidUpsert(r: UpsertDriverRequest) {
    !Blank(r.ext) && !Blank(r.phone) && E164(r.phone)
  }

  predicate ValidUpdate(parses: AddressParser, r: UpdateUserRequest) {
    !Blank(r.id) && PhoneOk(r.patch.phone) && EmailOk(parses, r.patch.email)
  }

  predicate KindOk(kind: string) {
    kind == "CAR" || kind == "MOTORCYCLE"
  }

  predicate ValidVehicle(r: RegisterVehicleRequest) {
    && !Blank(r.driver)
    && Normalise(r.nopol) != ""
    && MatchPlate(Normalise(r.nopol)).Some?
    && KindOk(r.kind)
  }

  // The row CreateUser asks for.
  function CreateRow(r: CreateUserRequest): NewUser {
    NewUser("", r.ext, r.name, r.phone, r.email, Active)
  }

  // The row GetOrCreateByMSISDN asks for: a missing name becomes "Driver", no e-mail.
  function DriverRow(r: UpsertDriverRequest): NewUser {
    NewUser("", r.ext, if r.name == "" then "Driver" else r.name, r.phone, "", Active)
  }

  // ----- What the validators accept -----

  const WHITE_SPACE := "\U{0009}\U{000A}\U{000B}\U{000C}\U{000D} \U{0085}\U{00A0}\U{1680}"
    + "\U{2000}\U{2001}\U{2002}\U{2003}\U{2004}\U{2005}\U{2006}\U{2007}\U{2008}\U{2009}\U{200A}"
    + "\U{2028}\U{2029}\U{202F}\U{205F}\U{3000}"

  function TrimLeft(s: string): string {
    if s != "" && s[0] in WHITE_SPACE then TrimLeft(s[1..]) else s
  }

  function TrimRight(s: string): string {
    if s != "" && s[|s| - 1] in WHITE_SPACE then TrimRight(s[..|s| - 1]) else s
  }

  function TrimSpace(s: string): string {
    TrimRight(TrimLeft(s))
  }

  lemma SpaceExact(c: char)
    ensures Space(c) <==> c in WHITE_SPACE
  {
  }

  lemma {:induction false} TrimLeftEmpty(s: string)
    ensures TrimLeft(s) == "" <==> Blank(s)
    ensures TrimLeft(s) != "" ==> TrimLeft(s)[0] !in WHITE_SPACE
  {
    if s != "" {
      SpaceExact(s[0]);
      TrimLeftEmpty(s[1..]);
    }
  }

  lemma {:induction false} TrimRightKeepsFirst(s: string)
    requires s != "" && s[0] !in WHITE_SPACE
    ensures TrimRight(s) != ""
  {
    if s[|s| - 1] in WHITE_SPACE { TrimRightKeepsFirst(s[..|s| - 1]); }
  }

  lemma BlankExact(s: string)
    ensures Blank(s) <==> TrimSpace(s) == ""
  {
    TrimLeftEmpty(s);
    if TrimLeft(s) != "" { TrimRightKeepsFirst(TrimLeft(s)); }
  }

  // A plus sign, a digit from 1 to 9, and more digits.
  function Number(first: char, rest: string): string {
    ['+', first] + rest
  }

  ghost predicate InternationalNumber(s: string) {
    exists first: char, rest: string :: s == Number(first, rest)
      && '1' <= first <= '9' && 7 <= |rest| <= 14 && forall c <- rest :: '0' <= c <= '9'
  }

  lemma E164Exact(s: string)
    ensures E164(s) <==> InternationalNumber(s)
  {
    if E164(s) {
      assert s == Number(s[1], s[2..]);
    }
    if InternationalNumber(s) {
      var first, rest :| s == Number(first, rest) && '1' <= first <= '9' && 7 <= |rest| <= 14
                         && forall c <- rest :: '0' <= c <= '9';
      forall i | 2 <= i < |s| ensures Digit(s[i]) {
        assert s[i] == rest[i - 2] && rest[i - 2] in rest;
      }
    }
  }

  lemma CreateAccepted(parses: AddressParser, r: CreateUserRequest)
    ensures ValidCreate(parses, r) <==>
              && TrimSpace(r.ext) != "" && TrimSpace(r.name) != ""
              && (r.phone == "" || InternationalNumber(r.phone)) && (r.email == "" || parses(r.email))
  {
    BlankExact(r.ext);
    BlankExact(r.name);
    E164Exact(r.phone);
  }

  lemma UpsertAccepted(r: UpsertDriverRequest)
    ensures ValidUpsert(r) <==> TrimSpace(r.ext) != "" && InternationalNumber(r.phone)
  {
    BlankExact(r.ext);
    NumberNotBlank(r.phone);
    E164Exact(r.phone);
  }

  lemma UpdateAccepted(parses: AddressParser, r: UpdateUserRequest)
    ensures ValidUpdate(parses, r) <==>
              && TrimSpace(r.id) != ""
              && (r.patch.phone == "" || InternationalNumber(r.patch.phone))
              && (r.patch.email == "" || parses(r.patch.email))
  {
    BlankExact(r.id);
    E164Exact(r.patch.phone);
  }

  lemma VehicleAccepted(r: RegisterVehicleRequest)
    ensures ValidVehicle(r) <==>
              && TrimSpace(r.driver) != "" && InLanguage(Normalise(r.nopol))
              && (r.kind == "CAR" || r.kind == "MOTORCYCLE")
  {
    BlankExact(r.driver);
    ScannerExact(Normalise(r.nopol));
  }

  lemma NumberNotBlank(s: string)
    ensures E164(s) ==> !Blank(s)
  {
    if E164(s) {
      assert s[0] == '+' && s[0] in s;
    }
  }
}
