/**
 * Request-body validation of the service (the pydantic schemas): the two text validators,
 * and the UUID type of `user_id` with its text form.
 */
module Schemas {
  import opened Wrappers
  import opened Errors
  import PyStr

  /** `not v or not v.strip()`: the text is empty or only whitespace. */
  predicate IsBlank(v: string)
  {
    v == [] || PyStr.Strip(v) == []
  }

  /** Normalised text, as the validators return it: non-empty, not beginning or ending in whitespace. */
  predicate IsNormalText(t: string)
  {
    t != [] && PyStr.IsStripped(t)
  }

  /** `QuestionBase.not_empty`: rejects blank text, otherwise returns it stripped. */
  function QuestionNotEmpty(v: string): (r: Result<string, Error>)
    ensures r.Failure? <==> PyStr.AllSpace(v)
    ensures r.Failure? ==> r.error == ValidationError
    ensures r.Success? ==> IsNormalText(r.value) && r.value == PyStr.Strip(v)
  {
    if IsBlank(v) then Failure(ValidationError) else Success(PyStr.Strip(v))
  }

  /** `AnswerBase.text_not_empty`: the same rule for the text of an answer. */
  function AnswerTextNotEmpty(v: string): (r: Result<string, Error>)
    ensures r.Failure? <==> PyStr.AllSpace(v)
    ensures r.Failure? ==> r.error == ValidationError
    ensures r.Success? ==> IsNormalText(r.value) && r.value == PyStr.Strip(v)
  {
    if IsBlank(v) then Failure(ValidationError) else Success(PyStr.Strip(v))
  }

  /** Validating the validator's own output gives the same text back. This is what happens
      when a stored row is turned into a response schema, which runs the validator again. */
  lemma QuestionNotEmptyIdempotent(v: string)
    ensures QuestionNotEmpty(v).Success? ==> QuestionNotEmpty(QuestionNotEmpty(v).value) == QuestionNotEmpty(v)
  {
    PyStr.StripIdempotent(v);
  }

  lemma AnswerTextNotEmptyIdempotent(v: string)
    ensures AnswerTextNotEmpty(v).Success? ==> AnswerTextNotEmpty(AnswerTextNotEmpty(v).value) == AnswerTextNotEmpty(v)
  {
    PyStr.StripIdempotent(v);
  }

  /** A text the validators accept is left unchanged by them exactly when it is already normalised. */
  lemma NormalTextIsFixedPoint(t: string)
    ensures QuestionNotEmpty(t) == Success(t) <==> IsNormalText(t)
  {
    if IsNormalText(t) {
      assert PyStr.RStrip(t) == t;
      assert PyStr.LStrip(t) == t;
    }
  }

  /** Both validators give the same verdict and the same text on every input. */
  lemma ValidatorsAgree(v: string)
    ensures QuestionNotEmpty(v) == AnswerTextNotEmpty(v)
  {
  }

  // ---------------------------------------------------------------- UUID

  type Nibble = n: int | 0 <= n < 16

  /** A 128-bit UUID, as its 32 hexadecimal digits, most significant first. */
  type Uuid = s: seq<Nibble> | |s| == 32 witness seq(32, _ => 0)

  /** The value of a hexadecimal digit of either case. */
  function HexValue(c: char): (r: Option<Nibble>)
    ensures r.Some? <==> ('0' <= c <= '9' || 'a' <= c <= 'f' || 'A' <= c <= 'F')
  {
    if '0' <= c <= '9' then Some(c as int - '0' as int)
    else if 'a' <= c <= 'f' then Some(c as int - 'a' as int + 10)
    else if 'A' <= c <= 'F' then Some(c as int - 'A' as int + 10)
    else None
  }

  /** The lower-case hexadecimal digit for `n`. */
  function HexDigit(n: Nibble): (c: char)
    ensures HexValue(c) == Some(n)
    ensures c != '-'
  {
    "0123456789abcdef"[n]
  }

  function HexString(ns: seq<Nibble>): (r: string)
    ensures |r| == |ns|
    ensures forall i | 0 <= i < |ns| :: r[i] == HexDigit(ns[i])
  {
    if ns == [] then [] else [HexDigit(ns[0])] + HexString(ns[1..])
  }

  /** Every character of `t` is a hexadecimal digit, of either case. */
  predicate IsHexText(t: string)
  {
    forall i | 0 <= i < |t| :: HexValue(t[i]).Some?
  }

  /** Reads a run of hexadecimal digits; `None` as soon as one character is not one. */
  function ParseHex(s: string): (r: Option<seq<Nibble>>)
    ensures r.Some? <==> IsHexText(s)
    ensures r.Some? ==> |r.value| == |s| && forall i | 0 <= i < |s| :: r.value[i] == HexValue(s[i]).value
  {
    if s == [] then Some([])
    else match (HexValue(s[0]), ParseHex(s[1..]))
      case (Some(d), Some(ds)) => Some([d] + ds)
      case _ => None
  }

  lemma {:induction false} ParseHexString(ns: seq<Nibble>)
    ensures ParseHex(HexString(ns)) == Some(ns)
  {
    if ns != [] {
      ParseHexString(ns[1..]);
      assert HexString(ns)[1..] == HexString(ns[1..]);
      assert [ns[0]] + ns[1..] == ns;
    }
  }

  /** The 8-4-4-4-12 grouping of 32 digits. */
  function Hyphenate(h: string): (r: string)
    requires |h| == 32
    ensures |r| == 36
    ensures r[8] == '-' && r[13] == '-' && r[18] == '-' && r[23] == '-'
  {
    h[..8] + "-" + h[8..12] + "-" + h[12..16] + "-" + h[16..20] + "-" + h[20..]
  }

  /** `str(uuid)`: the canonical spelling, five lower-case groups of 8-4-4-4-12 digits. */
  function FormatUuid(u: Uuid): (r: string)
    ensures |r| == 36
    ensures r[8] == '-' && r[13] == '-' && r[18] == '-' && r[23] == '-'
  {
    Hyphenate(HexString(u))
  }

  /** 36 characters with hyphens where the 8-4-4-4-12 grouping puts them. */
  predicate IsHyphenated(s: string)
  {
    |s| == 36 && s[8] == '-' && s[13] == '-' && s[18] == '-' && s[23] == '-'
  }

  /** The 32 characters of a 36-character spelling outside the four hyphen positions. */
  function Dehyphenate(s: string): (h: string)
    requires |s| == 36
    ensures |h| == 32
  {
    s[..8] + s[9..13] + s[14..18] + s[19..23] + s[24..]
  }

  /** The two spellings of a UUID accepted for `user_id`: 32 hexadecimal digits, either
      grouped 8-4-4-4-12 by hyphens or bare, in either case. */
  predicate IsUuidText(s: string)
  {
    (IsHyphenated(s) && IsHexText(Dehyphenate(s))) || (|s| == 32 && IsHexText(s))
  }

  /** Reads a UUID from exactly the accepted spellings. The UUID is the value of its
      digits, most significant first. */
  function ParseUuid(s: string): (r: Option<Uuid>)
    ensures r.Some? <==> IsUuidText(s)
    ensures r.Some? && |s| == 36 ==> forall i | 0 <= i < 32 :: r.value[i] == HexValue(Dehyphenate(s)[i]).value
    ensures r.Some? && |s| == 32 ==> forall i | 0 <= i < 32 :: r.value[i] == HexValue(s[i]).value
  {
    if IsHyphenated(s) then
      match ParseHex(Dehyphenate(s))
      case Some(ns) => Some(ns)
      case None => None
    else if |s| == 32 then
      match ParseHex(s)
      case Some(ns) => Some(ns)
      case None => None
    else None
  }

  /** Dropping the four hyphens of an 8-4-4-4-12 spelling leaves its digits, in order. */
  lemma HyphenatedDigits(h: string)
    requires |h| == 32
    ensures Dehyphenate(Hyphenate(h)) == h
  {
    var s := Hyphenate(h);
    assert s[..8] == h[..8] && s[9..13] == h[8..12] && s[14..18] == h[12..16];
    assert s[19..23] == h[16..20] && s[24..] == h[20..];
    assert h[..8] + h[8..12] + h[12..16] + h[16..20] + h[20..] == h;
  }

  /** Reading back the canonical spelling gives the same UUID: what the store keeps in
      `answers.user_id` (a 36-character string) turns back into the caller's UUID. */
  lemma FormatThenParseUuid(u: Uuid)
    ensures ParseUuid(FormatUuid(u)) == Some(u)
  {
    HyphenatedDigits(HexString(u));
    ParseHexString(u);
  }

  /** The bare 32-digit spelling reads as the same UUID as the hyphenated one. */
  lemma BareFormParsesAlike(u: Uuid)
    ensures ParseUuid(HexString(u)) == ParseUuid(FormatUuid(u)) == Some(u)
  {
    ParseHexString(u);
    FormatThenParseUuid(u);
  }

  /** ASCII upper case: `a`-`z` become `A`-`Z`, every other character stays. */
  function UpperChar(c: char): char
  {
    if 'a' <= c <= 'z' then (c as int - 32) as char else c
  }

  function AsciiUpper(s: string): (r: string)
    ensures |r| == |s| && forall i | 0 <= i < |s| :: r[i] == UpperChar(s[i])
  {
    seq(|s|, i requires 0 <= i < |s| => UpperChar(s[i]))
  }

  /** Upper-case digits read as the same UUID as lower-case ones, and a text that is not a
      UUID is no UUID in upper case either. */
  lemma ParseUuidIgnoresCase(s: string)
    ensures ParseUuid(AsciiUpper(s)) == ParseUuid(s)
  {
    var t := AsciiUpper(s);
    assert forall i | 0 <= i < |s| :: HexValue(t[i]) == HexValue(s[i]);
    assert IsHyphenated(t) <==> IsHyphenated(s);
    if |s| == 36 {
      var ds, dt := Dehyphenate(s), Dehyphenate(t);
      assert forall i | 0 <= i < 32 :: HexValue(dt[i]) == HexValue(ds[i]) by {
        forall i | 0 <= i < 32 ensures HexValue(dt[i]) == HexValue(ds[i]) {
          var k := if i < 8 then i else if i < 12 then i + 1 else if i < 16 then i + 2 else if i < 20 then i + 3 else i + 4;
          assert ds[i] == s[k] && dt[i] == t[k];
        }
      }
      if ParseUuid(s).Some? && ParseUuid(t).Some? {
        assert ParseUuid(t).value == ParseUuid(s).value;
      }
    } else if |s| == 32 && ParseUuid(s).Some? && ParseUuid(t).Some? {
      assert ParseUuid(t).value == ParseUuid(s).value;
    }
  }

  /** The validated body of `POST /questions/{id}/answers/` (`AnswerCreate`). */
  datatype AnswerCreate = AnswerCreate(userId: Uuid, text: string)

  /** Validation of the answer body: `user_id` must read as a UUID and `text` must not be blank. */
  function ValidateAnswerCreate(userId: string, text: string): (r: Result<AnswerCreate, Error>)
    ensures r.Success? <==> ParseUuid(userId).Some? && !PyStr.AllSpace(text)
    ensures r.Failure? ==> r.error == ValidationError
    ensures r.Success? ==>
      Some(r.value.userId) == ParseUuid(userId) && IsNormalText(r.value.text) && r.value.text == PyStr.Strip(text)
  {
    match (ParseUuid(userId), AnswerTextNotEmpty(text))
    case (Some(u), Success(t)) => Success(AnswerCreate(u, t))
    case _ => Failure(ValidationError)
  }
}
