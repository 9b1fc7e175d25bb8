/** The `Recipient` value object: a lower-cased, validated single address,
    its role on the envelope and an optional display name. */
module Recipients {
  import opened Wrappers
  import opened Text

  /** The `RecipientType` enum. Like every C# enum it is backed by an `int`,
      so values outside the four named members can be cast into it. */
  newtype RecipientType = x: int | -0x8000_0000 <= x < 0x8000_0000

  const To: RecipientType := 0
  const Cc: RecipientType := 1
  const Bcc: RecipientType := 2
  const ReplyTo: RecipientType := 3

  /** One of the four declared members. */
  predicate IsNamed(t: RecipientType) {
    To <= t <= ReplyTo
  }

  /** The enum's `ToString()`: the member name, or the number for an
      undeclared value. Only the four names reach a log line, since
      `Compose` throws on an undeclared value before the log is built; the
      numeric case completes the enum's behaviour. */
  function TypeName(t: RecipientType): (s: string)
    ensures |s| >= 1
    ensures IsNamed(t) ==> IsLetter(s[0])
    ensures !IsNamed(t) ==> s == IntToString(t as int)
  {
    if t == To then "To"
    else if t == Cc then "Cc"
    else if t == Bcc then "Bcc"
    else if t == ReplyTo then "ReplyTo"
    else IntToString(t as int)
  }

  /** The role can be read back from its name: no two values print alike. */
  lemma TypeNameInjective(a: RecipientType, b: RecipientType)
    ensures TypeName(a) == TypeName(b) ==> a == b
  {
    if TypeName(a) == TypeName(b) && !IsNamed(a) && !IsNamed(b) {
      IntToStringInjective(a as int, b as int);
    }
  }

  /** A constructed recipient. `displayName == None` is a `null` name. */
  datatype Recipient = Recipient(email: string, role: RecipientType, displayName: Option<string>)

  /** The two `FormatException`s the constructor throws. */
  datatype FormatError =
    | InvalidAddress(value: string)   // the validator refused the lower-cased address
    | MultipleAddresses               // the address does not split into exactly two parts at `@`

  /** What every constructed recipient satisfies, given the validator. */
  predicate Valid(r: Recipient, isValid: string -> bool) {
    && isValid(r.email)
    && Count(r.email, '@') == 1
    && ToLower(r.email) == r.email
  }

  /** The constructor `new Recipient(email, type, displayName)`; the address
      validator is the parameter `isValid`. */
  function NewRecipient(isValid: string -> bool, email: string, role: RecipientType, displayName: Option<string>)
    : (r: Result<Recipient, FormatError>)
    ensures r.Success? <==> isValid(ToLower(email)) && Count(ToLower(email), '@') == 1
    ensures !isValid(ToLower(email)) ==> r == Failure(InvalidAddress(ToLower(email)))
    ensures isValid(ToLower(email)) && Count(ToLower(email), '@') != 1 ==> r == Failure(MultipleAddresses)
    ensures r.Success? ==> r.value.email == ToLower(email)
    ensures r.Success? ==> r.value.role == role && r.value.displayName == displayName
    ensures r.Success? ==> Valid(r.value, isValid)
  {
    var lower := ToLower(email);
    ToLowerIdempotent(email);
    if !isValid(lower) then Failure(InvalidAddress(lower))
    else if |Split(lower, '@')| != 2 then Failure(MultipleAddresses)
    else Success(Recipient(lower, role, displayName))
  }

  /** `new Recipient(email)`: role `To` and an empty display name. */
  function NewDefaultRecipient(isValid: string -> bool, email: string): (r: Result<Recipient, FormatError>)
    ensures r.Success? ==> r.value.role == To && r.value.displayName == Some("")
    ensures r.Success? <==> NewRecipient(isValid, email, To, Some("")).Success?
  {
    NewRecipient(isValid, email, To, Some(""))
  }

  /** Construction only sees the lower-cased address: inputs that differ only
      in the case of ASCII letters give the same outcome. */
  lemma NewRecipientIgnoresCase(isValid: string -> bool, a: string, b: string, role: RecipientType, displayName: Option<string>)
    requires ToLower(a) == ToLower(b)
    ensures NewRecipient(isValid, a, role, displayName) == NewRecipient(isValid, b, role, displayName)
  {
  }

  /** The `@` count the constructor checks is that of the address as given. */
  lemma NewRecipientCountsOriginalAt(isValid: string -> bool, email: string, role: RecipientType, displayName: Option<string>)
    ensures NewRecipient(isValid, email, role, displayName).Success? ==> Count(email, '@') == 1
  {
    ToLowerKeepsCount(email, '@');
  }

  /** A multi-address input such as `a@b.com,c@d.com` is always refused. */
  lemma {:induction false} TwoAddressesRefused(isValid: string -> bool, a: string, b: string, role: RecipientType, displayName: Option<string>)
    requires '@' in a && '@' in b
    ensures NewRecipient(isValid, a + "," + b, role, displayName).Failure?
  {
    var e := a + "," + b;
    assert e == a + ("," + b);
    CountAppend(a, "," + b, '@');
    CountAppend(",", b, '@');
    assert Count(e, '@') >= 2;
    ToLowerKeepsCount(e, '@');
    assert Count(ToLower(e), '@') >= 2;
  }

  /** `ToString()`: the bare address when the display name is `null`, empty
      or white space, otherwise `Name <address>`. */
  function Display(r: Recipient): (s: string)
    ensures IsNullOrWhiteSpace(r.displayName) <==> s == r.email
    ensures !IsNullOrWhiteSpace(r.displayName) ==> s == r.displayName.value + " <" + r.email + ">"
  {
    if IsNullOrWhiteSpace(r.displayName) then r.email
    else r.displayName.value + " <" + r.email + ">"
  }

  /** The rendered form always ends with the address, followed by `>` exactly
      when a display name is shown. */
  lemma DisplayEndsWithAddress(r: Recipient)
    ensures var s := Display(r);
            var k := if IsNullOrWhiteSpace(r.displayName) then 0 else 1;
            && |s| >= |r.email| + k
            && s[|s| - |r.email| - k .. |s| - k] == r.email
            && (k == 1 ==> s[|s| - 1] == '>')
  {
  }
}
