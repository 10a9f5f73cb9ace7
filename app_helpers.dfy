/**
 * The decisions app.js makes outside the routers: the locale each request is served in
 * (query parameter `lang`, then the `locale` cookie, then English), and the Handlebars
 * helpers `translateStatus`, `translateAction`, `incrementedIndex`, `eq`, `ifEquals` and
 * `base64`.
 */
module AppHelpers {
  import opened Wrappers
  import opened JobApplicationModel
  import opened Upload

  // ---------------------------------------------------------------------------------------
  // Locale choice

  /**
   * `req.query.lang || req.cookies.locale || "en"`: the first non-empty of the two, since
   * an absent value and the empty string are both falsy.  The choice is never empty.
   */
  function ChooseLocale(query: Option<string>, cookie: Option<string>): (lang: string)
    ensures lang != ""
    ensures Filled(query) ==> lang == query.value
    ensures !Filled(query) && Filled(cookie) ==> lang == cookie.value
    ensures !Filled(query) && !Filled(cookie) ==> lang == "en"
  {
    if Filled(query) then query.value
    else if Filled(cookie) then cookie.value
    else "en"
  }

  /**
   * The middleware writes its choice back into the `locale` cookie, so a later request
   * without `lang` is served in the same locale, and a later `lang` overrides it.
   */
  lemma LocaleSticks(query: Option<string>, cookie: Option<string>, later: Option<string>)
    ensures var lang := ChooseLocale(query, cookie);
      ChooseLocale(later, Some(lang)) == if Filled(later) then later.value else lang
  {
  }

  // ---------------------------------------------------------------------------------------
  // Translation tables

  datatype Locale = En | Es | Fr

  /** The three keys of the `translations` objects. */
  function ParseLocale(name: string): (r: Option<Locale>)
    ensures r.Some? <==> (name == "en" || name == "es" || name == "fr")
  {
    if name == "en" then Some(En)
    else if name == "es" then Some(Es)
    else if name == "fr" then Some(Fr)
    else None
  }

  /**
   * `translations[locale][key]`: a table entry, `undefined` for a key the table lacks
   * (Handlebars renders it as nothing), or the TypeError of indexing an undefined table
   * when the locale is not one of the three.
   */
  datatype Lookup = Found(text: string) | Undefined | TypeErrorThrown

  function StatusLabel(l: Locale, s: Status): string {
    match (l, s)
    case (En, Applied) => "Applied"
    case (En, Interviewed) => "Interviewed"
    case (En, Offered) => "Offered"
    case (En, Rejected) => "Rejected"
    case (Es, Applied) => "Aplicado"
    case (Es, Interviewed) => "Entrevistado"
    case (Es, Offered) => "Ofrecido"
    case (Es, Rejected) => "Rechazado"
    case (Fr, Applied) => "Appliqué"
    case (Fr, Interviewed) => "Interviewé"
    case (Fr, Offered) => "Offert"
    case (Fr, Rejected) => "Rejeté"
  }

  /** The keys of each status table are exactly the four status names of the schema. */
  function TranslateStatus(locale: string, status: string): (r: Lookup)
    ensures r.TypeErrorThrown? <==> ParseLocale(locale).None?
    ensures r.Found? <==> ParseLocale(locale).Some? && ParseStatus(status).Some?
    ensures r.Found? ==> r.text == StatusLabel(ParseLocale(locale).value, ParseStatus(status).value)
  {
    match ParseLocale(locale)
    case None => TypeErrorThrown
    case Some(l) =>
      match ParseStatus(status)
      case None => Undefined
      case Some(s) => Found(StatusLabel(l, s))
  }

  /** Within one locale, different statuses are shown differently. */
  lemma StatusLabelsDistinct(l: Locale, s: Status, t: Status)
    requires s != t
    ensures StatusLabel(l, s) != StatusLabel(l, t)
  {
  }

  /** Every stored status is translated in every supported locale. */
  lemma EveryStatusTranslated(locale: string, s: Status)
    requires ParseLocale(locale).Some?
    ensures TranslateStatus(locale, StatusName(s)) == Found(StatusLabel(ParseLocale(locale).value, s))
  {
  }

  datatype Action = Edit | Delete

  function ParseAction(name: string): (r: Option<Action>)
    ensures r.Some? <==> (name == "edit" || name == "delete")
  {
    if name == "edit" then Some(Edit)
    else if name == "delete" then Some(Delete)
    else None
  }

  function ActionLabel(l: Locale, a: Action): string {
    match (l, a)
    case (En, Edit) => "Edit"
    case (En, Delete) => "Delete"
    case (Es, Edit) => "Editar"
    case (Es, Delete) => "Eliminar"
    case (Fr, Edit) => "Éditer"
    case (Fr, Delete) => "Supprimer"
  }

  function TranslateAction(locale: string, action: string): (r: Lookup)
    ensures r.TypeErrorThrown? <==> ParseLocale(locale).None?
    ensures r.Found? <==> ParseLocale(locale).Some? && ParseAction(action).Some?
    ensures r.Found? ==> r.text == ActionLabel(ParseLocale(locale).value, ParseAction(action).value)
  {
    match ParseLocale(locale)
    case None => TypeErrorThrown
    case Some(l) =>
      match ParseAction(action)
      case None => Undefined
      case Some(a) => Found(ActionLabel(l, a))
  }

  lemma ActionLabelsDistinct(l: Locale)
    ensures ActionLabel(l, Edit) != ActionLabel(l, Delete)
  {
  }

  /**
   * The middleware accepts any `lang`, but the tables only know three locales: a request
   * with `?lang=de` makes both helpers throw while rendering.
   */
  lemma UnsupportedLocaleThrows(query: string, cookie: Option<string>, key: string)
    requires query == "de"
    ensures TranslateStatus(ChooseLocale(Some(query), cookie), key) == TypeErrorThrown
    ensures TranslateAction(ChooseLocale(Some(query), cookie), key) == TypeErrorThrown
  {
    assert ChooseLocale(Some(query), cookie) == query;
    assert query[0] == 'd';
  }

  // ---------------------------------------------------------------------------------------
  // Small helpers

  /** `incrementedIndex`: the 0-based `@index` of an `#each` loop shown counting from 1. */
  function IncrementedIndex(index: int): int {
    index + 1
  }

  /** The numbers a list of n items is shown with are 1, 2, ..., n. */
  function DisplayNumbers(n: nat): (r: seq<int>)
    ensures |r| == n
    ensures forall i | 0 <= i < n :: r[i] == i + 1
    ensures forall i, j | 0 <= i < j < n :: r[i] < r[j]
    ensures n > 0 ==> r[0] == 1 && r[n - 1] == n
  {
    seq(n, i requires 0 <= i < n => IncrementedIndex(i))
  }

  /** The template values the comparison helpers see: strings, `undefined` and `null`. */
  datatype JsValue = JsUndefined | JsNull | JsString(s: string)

  /** `eq`: `a === b`. */
  function StrictEquals(a: JsValue, b: JsValue): (r: bool)
    ensures (a.JsString? && b.JsString?) ==> (r <==> a.s == b.s)
    ensures (a.JsString? != b.JsString?) ==> !r
  {
    match (a, b)
    case (JsUndefined, JsUndefined) => true
    case (JsNull, JsNull) => true
    case (JsString(x), JsString(y)) => x == y
    case _ => false
  }

  /** `ifEquals`: `arg1 == arg2`, where `null` and `undefined` are loosely equal. */
  function LooseEquals(a: JsValue, b: JsValue): (r: bool)
    ensures (a.JsString? && b.JsString?) ==> (r <==> a.s == b.s)
    ensures (a.JsString? != b.JsString?) ==> !r
  {
    match (a, b)
    case (JsString(x), JsString(y)) => x == y
    case (JsString(_), _) => false
    case (_, JsString(_)) => false
    case _ => true
  }

  /** `ifEquals` and `eq` disagree exactly when one side is `null` and the other `undefined`. */
  lemma LooseAndStrictDiffer(a: JsValue, b: JsValue)
    ensures StrictEquals(a, b) ==> LooseEquals(a, b)
    ensures (LooseEquals(a, b) && !StrictEquals(a, b)) <==>
      ((a == JsNull && b == JsUndefined) || (a == JsUndefined && b == JsNull))
  {
  }

  // ---------------------------------------------------------------------------------------
  // base64

  /** The standard base64 alphabet `A-Z a-z 0-9 + /` that `Buffer.toString("base64")` uses. */
  function Base64Digit(d: int): (c: char)
    requires 0 <= d < 64
    ensures c != '='
  {
    if d < 26 then ('A' as int + d) as char
    else if d < 52 then ('a' as int + (d - 26)) as char
    else if d < 62 then ('0' as int + (d - 52)) as char
    else if d == 62 then '+'
    else '/'
  }

  /** The position of a character in the alphabet; `=` and every other character have none. */
  function DigitValue(c: char): (r: Option<int>)
    ensures r.Some? ==> 0 <= r.value < 64 && Base64Digit(r.value) == c
  {
    if 'A' <= c <= 'Z' then Some(c as int - 'A' as int)
    else if 'a' <= c <= 'z' then Some(c as int - 'a' as int + 26)
    else if '0' <= c <= '9' then Some(c as int - '0' as int + 52)
    else if c == '+' then Some(62)
    else if c == '/' then Some(63)
    else None
  }

  lemma DigitRoundTrip(d: int)
    requires 0 <= d < 64
    ensures DigitValue(Base64Digit(d)) == Some(d)
  {
  }

  /** One group of one to three bytes as four characters, padded with `=`. */
  function EncodeGroup(b: seq<byte>): (r: string)
    requires 1 <= |b| <= 3
    ensures |r| == 4
  {
    var b0 := b[0] as int;
    var b1 := if |b| > 1 then b[1] as int else 0;
    var b2 := if |b| > 2 then b[2] as int else 0;
    [Base64Digit(b0 / 4), Base64Digit((b0 % 4) * 16 + b1 / 16),
     if |b| > 1 then Base64Digit((b1 % 16) * 4 + b2 / 64) else '=',
     if |b| > 2 then Base64Digit(b2 % 64) else '=']
  }

  /** `buffer.toString("base64")`: four characters for every started group of three bytes. */
  function Encode(b: seq<byte>): (r: string)
    ensures |r| == 4 * ((|b| + 2) / 3)
    decreases |b|
  {
    if b == [] then ""
    else if |b| <= 3 then EncodeGroup(b)
    else EncodeGroup(b[..3]) + Encode(b[3..])
  }

  /** The bytes four characters stand for, or None when they are not a well-formed group. */
  function DecodeGroup(s: string): (r: Option<seq<byte>>)
    requires |s| == 4
  {
    var v0, v1, v2, v3 := DigitValue(s[0]), DigitValue(s[1]), DigitValue(s[2]), DigitValue(s[3]);
    if v0.None? || v1.None? then None
    else
      var b0 := v0.value * 4 + v1.value / 16;
      if s[2] == '=' && s[3] == '=' then Some([b0 as byte])
      else if v2.None? then None
      else
        var b1 := (v1.value % 16) * 16 + v2.value / 4;
        if s[3] == '=' then Some([b0 as byte, b1 as byte])
        else if v3.None? then None
        else Some([b0 as byte, b1 as byte, ((v2.value % 4) * 64 + v3.value) as byte])
  }

  function Decode(s: string): (r: Option<seq<byte>>)
    decreases |s|
  {
    if s == [] then Some([])
    else if |s| < 4 then None
    else
      match DecodeGroup(s[..4])
      case None => None
      case Some(g) =>
        if |s| > 4 && |g| < 3 then None
        else
          match Decode(s[4..])
          case None => None
          case Some(rest) => Some(g + rest)
  }

  /** The four six-bit digits of three bytes put back together give the bytes again. */
  lemma DigitsRecombine(b0: int, b1: int, b2: int)
    requires 0 <= b0 < 256 && 0 <= b1 < 256 && 0 <= b2 < 256
    ensures var d0, d1, d2, d3 := b0 / 4, (b0 % 4) * 16 + b1 / 16, (b1 % 16) * 4 + b2 / 64, b2 % 64;
      && 0 <= d0 < 64 && 0 <= d1 < 64 && 0 <= d2 < 64 && 0 <= d3 < 64
      && d0 * 4 + d1 / 16 == b0
      && (d1 % 16) * 16 + d2 / 4 == b1
      && (d2 % 4) * 64 + d3 == b2
  {
  }

  /** The digits of a group decode to themselves: the first two always, the rest unless padding. */
  lemma GroupDigits(b: seq<byte>)
    requires 1 <= |b| <= 3
    ensures var b0 := b[0] as int;
      var b1 := if |b| > 1 then b[1] as int else 0;
      var b2 := if |b| > 2 then b[2] as int else 0;
      var s := EncodeGroup(b);
      && DigitValue(s[0]) == Some(b0 / 4)
      && DigitValue(s[1]) == Some((b0 % 4) * 16 + b1 / 16)
      && (s[2] == '=' <==> |b| == 1)
      && (|b| > 1 ==> DigitValue(s[2]) == Some((b1 % 16) * 4 + b2 / 64))
      && (s[3] == '=' <==> |b| < 3)
      && (|b| > 2 ==> DigitValue(s[3]) == Some(b2 % 64))
  {
    var b0 := b[0] as int;
    var b1 := if |b| > 1 then b[1] as int else 0;
    var b2 := if |b| > 2 then b[2] as int else 0;
    DigitsRecombine(b0, b1, b2);
    DigitRoundTrip(b0 / 4);
    DigitRoundTrip((b0 % 4) * 16 + b1 / 16);
    DigitRoundTrip((b1 % 16) * 4 + b2 / 64);
    DigitRoundTrip(b2 % 64);
  }

  lemma GroupRoundTrip(b: seq<byte>)
    requires 1 <= |b| <= 3
    ensures DecodeGroup(EncodeGroup(b)) == Some(b)
  {
    var b0 := b[0] as int;
    var b1 := if |b| > 1 then b[1] as int else 0;
    var b2 := if |b| > 2 then b[2] as int else 0;
    DigitsRecombine(b0, b1, b2);
    GroupDigits(b);
    if |b| == 1 {
      assert b == [b0 as byte];
    } else if |b| == 2 {
      assert b == [b0 as byte, b1 as byte];
    } else {
      assert b == [b0 as byte, b1 as byte, b2 as byte];
    }
  }

  /** Decoding what `toString("base64")` produced gives back the buffer. */
  lemma {:induction false} EncodeRoundTrip(b: seq<byte>)
    ensures Decode(Encode(b)) == Some(b)
    decreases |b|
  {
    if b == [] {
    } else if |b| <= 3 {
      GroupRoundTrip(b);
      var s := Encode(b);
      assert s[..4] == s && s[4..] == [];
      assert b + [] == b;
    } else {
      GroupRoundTrip(b[..3]);
      EncodeRoundTrip(b[3..]);
      var s := Encode(b);
      assert s[..4] == EncodeGroup(b[..3]);
      assert s[4..] == Encode(b[3..]);
      assert b[..3] + b[3..] == b;
    }
  }

  /**
   * The `base64` helper: `buffer ? buffer.toString("base64") : ""`.  A missing buffer
   * gives the empty string, and so does an empty one (a Buffer object is truthy).
   */
  function Base64(buffer: Option<seq<byte>>): (r: string)
    ensures r == "" <==> buffer.None? || buffer.value == []
    ensures buffer.Some? ==> Decode(r) == Some(buffer.value)
  {
    if buffer.Some? then
      EncodeRoundTrip(buffer.value);
      Encode(buffer.value)
    else ""
  }
}
