/**
 * The declarative constraints on `BookDTO`: `@NotBlank` and `@Size` on title
 * and author, none on price. They are checked at the controller boundary
 * (`@Valid`); the service never checks them.
 */
module Validation {
  import opened Options
  import opened Model
  import DecimalText

  /** One violated constraint: the field's name and the constraint's default message. */
  datatype FieldError = FieldError(field: string, message: string)

  const NotBlankMessage: string := "must not be blank"

  function SizeMessage(min: nat, max: nat): (m: string)
    ensures m != NotBlankMessage
  {
    var m := "size must be between " + DecimalText.NatToString(min) + " and " + DecimalText.NatToString(max);
    assert m[0] == 's';
    m
  }

  /** `String.trim` on the left: drops leading characters up to U+0020. */
  function TrimStart(s: string): (t: string)
    ensures |t| <= |s| && t == s[|s| - |t|..]
    ensures |t| == 0 || t[0] > ' '
    ensures forall i :: 0 <= i < |s| - |t| ==> s[i] <= ' '
  {
    if |s| > 0 && s[0] <= ' ' then TrimStart(s[1..]) else s
  }

  /** `String.trim` on the right: drops trailing characters up to U+0020. */
  function TrimEnd(s: string): (t: string)
    ensures |t| <= |s| && t == s[..|t|]
    ensures |t| == 0 || t[|t| - 1] > ' '
    ensures forall i :: |t| <= i < |s| ==> s[i] <= ' '
  {
    if |s| > 0 && s[|s| - 1] <= ' ' then TrimEnd(s[..|s| - 1]) else s
  }

  function Trim(s: string): string {
    TrimEnd(TrimStart(s))
  }

  /**
   * `@NotBlank` (Hibernate Validator): not null, and not empty once trimmed;
   * that is, some character is above U+0020.
   */
  predicate NotBlank(value: Option<string>): (r: bool)
    ensures r <==> value.Some? && HasNonWhitespace(value.value)
  {
    if value.Some? then TrimNonEmpty(value.value); |Trim(value.value)| > 0 else false
  }

  /** `@Size(min, max)`: null passes; otherwise the length is within the bounds. */
  predicate SizeWithin(value: Option<string>, min: nat, max: nat) {
    value.None? || min <= |value.value| <= max
  }

  /** One error per violated constraint of a field, `@NotBlank` first. */
  function FieldViolations(field: string, value: Option<string>, min: nat, max: nat): (errors: seq<FieldError>)
    ensures |errors| == (if NotBlank(value) then 0 else 1) + (if SizeWithin(value, min, max) then 0 else 1)
    ensures forall e :: e in errors ==> e.field == field
    ensures FieldError(field, NotBlankMessage) in errors <==> !NotBlank(value)
    ensures FieldError(field, SizeMessage(min, max)) in errors <==> !SizeWithin(value, min, max)
  {
    (if NotBlank(value) then [] else [FieldError(field, NotBlankMessage)])
    + (if SizeWithin(value, min, max) then [] else [FieldError(field, SizeMessage(min, max))])
  }

  /**
   * Every field error of a DTO: the title's, then the author's. Each of the
   * four constraints contributes its error exactly when it is broken; the
   * price has no constraint.
   */
  function Violations(dto: BookDTO): (errors: seq<FieldError>)
    ensures |errors| ==
      (if NotBlank(dto.title) then 0 else 1) + (if SizeWithin(dto.title, 10, 30) then 0 else 1)
      + (if NotBlank(dto.author) then 0 else 1) + (if SizeWithin(dto.author, 5, 15) then 0 else 1)
    ensures forall e :: e in errors ==> e.field == "title" || e.field == "author"
    ensures forall i, j :: 0 <= i < j < |errors| && errors[j].field == "title" ==> errors[i].field == "title"
    ensures FieldError("title", NotBlankMessage) in errors <==> !NotBlank(dto.title)
    ensures FieldError("title", SizeMessage(10, 30)) in errors <==> !SizeWithin(dto.title, 10, 30)
    ensures FieldError("author", NotBlankMessage) in errors <==> !NotBlank(dto.author)
    ensures FieldError("author", SizeMessage(5, 15)) in errors <==> !SizeWithin(dto.author, 5, 15)
  {
    assert "title"[0] != "author"[0];
    FieldViolations("title", dto.title, 10, 30) + FieldViolations("author", dto.author, 5, 15)
  }

  /** The plain reading of the constraints: some character is not whitespace. */
  predicate HasNonWhitespace(s: string) {
    exists i :: 0 <= i < |s| && s[i] > ' '
  }

  predicate ValidTitle(title: Option<string>) {
    title.Some? && HasNonWhitespace(title.value) && 10 <= |title.value| <= 30
  }

  predicate ValidAuthor(author: Option<string>) {
    author.Some? && HasNonWhitespace(author.value) && 5 <= |author.value| <= 15
  }

  /** Trimming leaves something exactly when some character is not whitespace. */
  lemma TrimNonEmpty(s: string)
    ensures |Trim(s)| > 0 <==> HasNonWhitespace(s)
  {
    var t := TrimStart(s);
    if |t| > 0 {
      assert t[0] == s[|s| - |t|];
    } else {
      assert forall i :: 0 <= i < |s| ==> s[i] <= ' ';
    }
  }

  /** A DTO passes validation exactly when both its title and its author are valid. */
  lemma ValidIff(dto: BookDTO)
    ensures Violations(dto) == [] <==> ValidTitle(dto.title) && ValidAuthor(dto.author)
  {
    var t := FieldViolations("title", dto.title, 10, 30);
    var a := FieldViolations("author", dto.author, 5, 15);
    assert |Violations(dto)| == |t| + |a|;
  }

  /** A null field breaks only `@NotBlank`, since `@Size` accepts null. */
  lemma NullBreaksOnlyNotBlank(field: string, min: nat, max: nat)
    ensures FieldViolations(field, None, min, max) == [FieldError(field, NotBlankMessage)]
  {
  }

  /** The empty string breaks both constraints of a field with a positive minimum. */
  lemma EmptyBreaksBoth(field: string, min: nat, max: nat)
    requires 0 < min <= max
    ensures FieldViolations(field, Some(""), min, max)
      == [FieldError(field, NotBlankMessage), FieldError(field, SizeMessage(min, max))]
  {
  }

  /** Ten spaces have the title's length but are blank: one error. */
  lemma SpacesBreakOnlyNotBlank()
    ensures FieldViolations("title", Some("          "), 10, 30) == [FieldError("title", NotBlankMessage)]
  {
    TrimNonEmpty("          ");
  }

  /** The price never produces an error. */
  lemma PriceUnconstrained(dto: BookDTO, price: Option<Decimal>)
    ensures Violations(dto.(price := price)) == Violations(dto)
  {
  }

  /** A title shorter than ten characters is reported under "title". */
  lemma ShortTitleReported(dto: BookDTO)
    requires dto.title.Some? && |dto.title.value| < 10
    ensures FieldError("title", SizeMessage(10, 30)) in Violations(dto)
  {
  }
}
