/**
 * CreateUserDtoValidator: the FluentValidation rule set that a create
 * request must pass before the service touches the repository, and the
 * string.Join that turns its violations into one exception message.
 */
module Validation {

  /** The create request: only the proposed full name. */
  datatype CreateUserDto = CreateUserDto(fullName: string)

  const NotEmptyMessage := "Full name cannot be null or empty"
  const MinimumLengthMessage := "Full name must be greater than 3 letter"

  /** The bound given to MinimumLength; the rule is `length >= 3`, so three letters pass. */
  const MinimumLength: nat := 3

  /** The separator the service passes to string.Join. */
  const MessageSeparator := ", "

  /** char.IsWhiteSpace: the Unicode space, line and paragraph separators and the C0/C1 controls .NET counts as white space. */
  predicate IsWhiteSpace(c: char)
  {
    ('\U{9}' <= c <= '\U{D}') || c == ' ' || c == '\U{85}' || c == '\U{A0}' || c == '\U{1680}'
    || ('\U{2000}' <= c <= '\U{200A}') || c == '\U{2028}' || c == '\U{2029}'
    || c == '\U{202F}' || c == '\U{205F}' || c == '\U{3000}'
  }

  /**
   * string.IsNullOrWhiteSpace for a non-null string: what NotEmpty rejects.
   * Every white-space character is in the Basic Multilingual Plane, so a
   * blank name's String.Length is its number of characters.
   */
  predicate IsEmptyOrWhiteSpace(s: string)
    ensures s == [] ==> IsEmptyOrWhiteSpace(s)
    ensures IsEmptyOrWhiteSpace(s) ==> Utf16Length(s) == |s|
  {
    forall i :: 0 <= i < |s| ==> IsWhiteSpace(s[i])
  }

  /**
   * String.Length, which counts UTF-16 code units: a character outside the
   * Basic Multilingual Plane takes two of them.
   */
  function Utf16Length(s: string): (n: nat)
    ensures |s| <= n <= 2 * |s|
    ensures (forall i :: 0 <= i < |s| ==> s[i] <= '\U{FFFF}') ==> n == |s|
  {
    if s == [] then 0
    else (if s[0] > '\U{FFFF}' then 2 else 1) + Utf16Length(s[1..])
  }

  /** What MinimumLength(3) rejects. */
  predicate IsTooShort(s: string)
  {
    Utf16Length(s) < MinimumLength
  }

  /**
   * The validator's result: the message of every failing rule, both rules
   * evaluated, in the order they are declared.
   */
  function Validate(request: CreateUserDto): (errors: seq<string>)
    ensures NotEmptyMessage in errors <==> IsEmptyOrWhiteSpace(request.fullName)
    ensures MinimumLengthMessage in errors <==> IsTooShort(request.fullName)
    ensures forall k :: 0 <= k < |errors| ==> errors[k] == NotEmptyMessage || errors[k] == MinimumLengthMessage
    ensures forall i, j :: 0 <= i < j < |errors| ==> errors[i] == NotEmptyMessage && errors[j] == MinimumLengthMessage
  {
    (if IsEmptyOrWhiteSpace(request.fullName) then [NotEmptyMessage] else [])
    + (if IsTooShort(request.fullName) then [MinimumLengthMessage] else [])
  }

  /** A valid request, stated independently of the rule list: some visible character and at least three code units. */
  predicate IsValidRequest(request: CreateUserDto)
  {
    (exists i :: 0 <= i < |request.fullName| && !IsWhiteSpace(request.fullName[i]))
    && Utf16Length(request.fullName) >= MinimumLength
  }

  /** ValidationResult.IsValid: the request is valid exactly when no rule produced a message. */
  lemma ValidIffNoMessages(request: CreateUserDto)
    ensures Validate(request) == [] <==> IsValidRequest(request)
  {
    var errors := Validate(request);
    if errors == [] {
      assert NotEmptyMessage !in errors;
    }
  }

  /**
   * string.Join(separator, parts): no parts give the empty string, one part
   * is returned as it is, and otherwise the result starts with the first
   * part, ends with the last (JoinEndsWithLast) and holds a separator
   * between each two, so its length is that of the parts plus the
   * separators (JoinLength).
   */
  function Join(separator: string, parts: seq<string>): (s: string)
    ensures parts == [] ==> s == ""
    ensures |parts| == 1 ==> s == parts[0]
    ensures parts != [] ==> parts[0] <= s
  {
    if parts == [] then ""
    else if |parts| == 1 then parts[0]
    else parts[0] + separator + Join(separator, parts[1..])
  }

  /** A join ends with its last part. */
  lemma {:induction false} JoinEndsWithLast(separator: string, parts: seq<string>)
    requires parts != []
    ensures var s, last := Join(separator, parts), parts[|parts| - 1];
      |last| <= |s| && s[|s| - |last|..] == last
  {
    if |parts| > 1 {
      JoinEndsWithLast(separator, parts[1..]);
      SuffixOfAppend(parts[0] + separator, Join(separator, parts[1..]), |parts[|parts| - 1]|);
    }
  }

  /** The total length of the parts. */
  function PartsLength(parts: seq<string>): nat
  {
    if parts == [] then 0 else |parts[0]| + PartsLength(parts[1..])
  }

  /** A join of n parts is exactly as long as the parts together plus its n - 1 separators. */
  lemma {:induction false} JoinLength(separator: string, parts: seq<string>)
    requires parts != []
    ensures |Join(separator, parts)| == PartsLength(parts) + (|parts| - 1) * |separator|
  {
    if |parts| > 1 {
      JoinLength(separator, parts[1..]);
      assert (|parts| - 1) * |separator| == (|parts| - 2) * |separator| + |separator|;
    } else {
      assert parts[1..] == [];
    }
  }

  /** The last k elements of a + b are the last k of b, when b has that many. */
  lemma SuffixOfAppend(a: string, b: string, k: nat)
    requires k <= |b|
    ensures (a + b)[|a + b| - k..] == b[|b| - k..]
  {
  }

  /** Joining is a fold from either end: appending one more part adds the separator and that part. */
  lemma {:induction false} JoinAppend(separator: string, parts: seq<string>, last: string)
    ensures Join(separator, parts + [last]) == if parts == [] then last else Join(separator, parts) + separator + last
  {
    if |parts| <= 1 {
      if |parts| == 1 {
        assert (parts + [last])[1..] == [last];
      } else {
        assert parts + [last] == [last];
      }
    } else {
      var tail := parts[1..];
      assert (parts + [last])[1..] == tail + [last];
      JoinAppend(separator, tail, last);
      assert Join(separator, parts + [last]) == parts[0] + separator + (Join(separator, tail) + separator + last);
      assert Join(separator, parts) == parts[0] + separator + Join(separator, tail);
    }
  }

  /** The exception message the service raises for a request the validator rejects. */
  function ValidationMessage(request: CreateUserDto): (message: string)
    ensures message == "" <==> Validate(request) == []
    ensures Validate(request) != [] ==> Validate(request)[0] <= message
    ensures |Validate(request)| == 2 ==> message == NotEmptyMessage + MessageSeparator + MinimumLengthMessage
  {
    Join(MessageSeparator, Validate(request))
  }

  /** An invalid request never yields an empty message: it starts with the first violation. */
  lemma InvalidRequestMessage(request: CreateUserDto)
    requires !IsValidRequest(request)
    ensures Validate(request) != []
    ensures Validate(request)[0] <= ValidationMessage(request)
    ensures ValidationMessage(request) != ""
  {
    ValidIffNoMessages(request);
    var errors := Validate(request);
    if |errors| == 2 {
      assert errors[1..] == [errors[1]];
    }
  }

  /** The empty name breaks both rules, so both messages appear, joined in declaration order. */
  lemma EmptyNameMessages()
    ensures Validate(CreateUserDto("")) == [NotEmptyMessage, MinimumLengthMessage]
    ensures ValidationMessage(CreateUserDto(""))
         == "Full name cannot be null or empty" + ", " + "Full name must be greater than 3 letter"
  {
    var errors := [NotEmptyMessage, MinimumLengthMessage];
    assert Utf16Length("") == 0;
    assert Validate(CreateUserDto("")) == errors;
    assert errors[1..] == [MinimumLengthMessage];
  }

  /** A blank name of three spaces breaks only NotEmpty: the length rule counts it as long enough. */
  lemma BlankNameMessage()
    ensures Validate(CreateUserDto("   ")) == [NotEmptyMessage]
    ensures ValidationMessage(CreateUserDto("   ")) == NotEmptyMessage
  {
    assert Utf16Length("   ") == 3;
  }

  /** Despite the message's wording, a name of exactly three letters passes; two letters do not. */
  lemma MinimumLengthBoundary()
    ensures Validate(CreateUserDto("Ada")) == []
    ensures Validate(CreateUserDto("Al")) == [MinimumLengthMessage]
  {
    assert !IsWhiteSpace('A');
    assert Utf16Length("Ada") == 3;
    assert Utf16Length("Al") == 2;
  }

  /** The name used throughout the tests is valid. */
  lemma ExampleNameIsValid()
    ensures IsValidRequest(CreateUserDto("Emir TARTAR"))
    ensures Validate(CreateUserDto("Emir TARTAR")) == []
  {
    assert !IsWhiteSpace("Emir TARTAR"[0]);
    assert Utf16Length("Emir TARTAR") == 11;
    ValidIffNoMessages(CreateUserDto("Emir TARTAR"));
  }
}
