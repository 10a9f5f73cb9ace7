/**
 * The language switcher of public/javascripts/script.js: the `getCookie` parser over the
 * `document.cookie` string, the language it falls back to, and the label shown for it.
 * `String.prototype.split` with a non-empty separator is modelled as it is specified:
 * the text is cut at each leftmost, non-overlapping occurrence of the separator.
 */
module ClientScript {
  import opened Wrappers
  import opened JobApplicationModel
  import opened Upload

  // ---------------------------------------------------------------------------------------
  // `split`

  /** `s.indexOf(w, from)`: the first occurrence of w at or after `from`. */
  function IndexOf(s: string, w: string, from: nat): (k: Option<nat>)
    ensures k.Some? ==> from <= k.value && OccursAt(s, w, k.value)
    ensures k.Some? ==> forall j | from <= j < k.value :: !OccursAt(s, w, j)
    ensures k.None? <==> forall j | from <= j :: !OccursAt(s, w, j)
    decreases |s| - from
  {
    if from + |w| > |s| then None
    else if OccursAt(s, w, from) then Some(from)
    else IndexOf(s, w, from + 1)
  }

  /** The pieces of `s[from..]` between the separators. */
  function SplitFrom(s: string, sep: string, from: nat): (parts: seq<string>)
    requires sep != [] && from <= |s|
    ensures |parts| >= 1
    decreases |s| - from
  {
    match IndexOf(s, sep, from)
    case None => [s[from..]]
    case Some(i) => [s[from..i]] + SplitFrom(s, sep, i + |sep|)
  }

  /** `s.split(sep)` for a non-empty separator. */
  function Split(s: string, sep: string): (parts: seq<string>)
    requires sep != []
    ensures |parts| >= 1
  {
    SplitFrom(s, sep, 0)
  }

  /** `parts.join(sep)`. */
  function Join(parts: seq<string>, sep: string): string
    requires |parts| >= 1
  {
    if |parts| == 1 then parts[0] else parts[0] + sep + Join(parts[1..], sep)
  }

  lemma {:induction false} JoinSplitFrom(s: string, sep: string, from: nat)
    requires sep != [] && from <= |s|
    ensures Join(SplitFrom(s, sep, from), sep) == s[from..]
    decreases |s| - from
  {
    match IndexOf(s, sep, from)
    case None =>
    case Some(i) =>
      JoinSplitFrom(s, sep, i + |sep|);
      var parts := SplitFrom(s, sep, from);
      assert parts[1..] == SplitFrom(s, sep, i + |sep|);
      assert s[from..] == s[from..i] + s[i..i + |sep|] + s[i + |sep|..];
  }

  /** Joining the pieces with the separator gives back the text. */
  lemma JoinSplit(s: string, sep: string)
    requires sep != []
    ensures Join(Split(s, sep), sep) == s
  {
    JoinSplitFrom(s, sep, 0);
  }

  /** A slice in which no occurrence of w starts holds no occurrence of w. */
  lemma NoOccurrenceInSlice(s: string, w: string, from: nat, to: nat)
    requires from <= to <= |s|
    requires forall j | from <= j && j + |w| <= to :: !OccursAt(s, w, j)
    ensures forall j :: !OccursAt(s[from..to], w, j)
  {
    var t := s[from..to];
    forall j | OccursAt(t, w, j) ensures false {
      assert OccursAt(s, w, from + j) by {
        forall k | 0 <= k < |w| ensures s[from + j + k] == w[k] {
          assert s[from + j + k] == t[j + k] == t[j..j + |w|][k];
        }
        assert s[from + j..from + j + |w|] == w;
      }
    }
  }

  lemma {:induction false} PiecesFreeFrom(s: string, sep: string, from: nat)
    requires sep != [] && from <= |s|
    ensures forall k, j | 0 <= k < |SplitFrom(s, sep, from)| :: !OccursAt(SplitFrom(s, sep, from)[k], sep, j)
    decreases |s| - from
  {
    var parts := SplitFrom(s, sep, from);
    var found := IndexOf(s, sep, from);
    if found.None? {
      assert parts == [s[from..]];
      NoOccurrenceInSlice(s, sep, from, |s|);
      assert s[from..] == s[from..|s|];
    } else {
      var i := found.value;
      var rest := SplitFrom(s, sep, i + |sep|);
      PiecesFreeFrom(s, sep, i + |sep|);
      NoOccurrenceInSlice(s, sep, from, i);
      assert parts == [s[from..i]] + rest;
      forall k, j | 0 <= k < |parts| ensures !OccursAt(parts[k], sep, j) {
        if k == 0 {
          assert parts[k] == s[from..i];
          assert !OccursAt(s[from..i], sep, j);
        } else {
          assert parts[k] == rest[k - 1];
          assert !OccursAt(rest[k - 1], sep, j);
        }
      }
    }
  }

  /** No piece contains the separator. */
  lemma PiecesFree(s: string, sep: string)
    requires sep != []
    ensures var parts := Split(s, sep);
      forall k, j | 0 <= k < |parts| :: !OccursAt(parts[k], sep, j)
  {
    assert Split(s, sep) == SplitFrom(s, sep, 0);
    PiecesFreeFrom(s, sep, 0);
  }

  /** The first piece: the text up to the first separator, or all of it. */
  lemma FirstPiece(s: string, sep: string)
    requires sep != []
    ensures var k := IndexOf(s, sep, 0);
      Split(s, sep)[0] == if k.Some? then s[..k.value] else s
  {
  }

  // ---------------------------------------------------------------------------------------
  // `getCookie`

  function Marker(name: string): string {
    "; " + name + "="
  }

  /**
   * `getCookie(name)`: split `"; " + document.cookie` at `"; name="`; only when that gives
   * exactly two pieces is the value the second piece up to its first `;`.  Otherwise the
   * function falls off its end: `undefined`.
   */
  function GetCookie(cookie: string, name: string): Option<string> {
    var parts := Split("; " + cookie, Marker(name));
    if |parts| == 2 then Some(Split(parts[1], ";")[0]) else None
  }

  /**
   * v is what follows the occurrence of marker m at i in s, up to the next `;` or the end.
   */
  predicate ValueAfter(s: string, m: string, i: int, v: string) {
    OccursAt(s, m, i) && StartsWith(s[i + |m|..], v)
    && (i + |m| + |v| == |s| || s[i + |m| + |v|] == ';')
  }

  /** The marker occurs at exactly one position. */
  ghost predicate OccursOnce(s: string, w: string) {
    exists i :: OccursAt(s, w, i) && forall j | OccursAt(s, w, j) :: j == i
  }

  /** Two occurrences of a marker cannot overlap: its only `;` is its first character. */
  lemma MarkersApart(s: string, name: string, i: int, j: int)
    requires ';' !in name
    requires OccursAt(s, Marker(name), i) && OccursAt(s, Marker(name), j) && i < j
    ensures i + |Marker(name)| <= j
  {
    var m := Marker(name);
    assert s[j] == ';' by { assert s[j..j + |m|][0] == m[0]; }
    forall p | i < p < i + |m| ensures s[p] != ';' {
      assert s[p] == s[i..i + |m|][p - i] == m[p - i];
      if p - i >= 2 && p - i < |m| - 1 {
        assert m[p - i] == name[p - i - 2];
      }
    }
  }

  /** Splitting at a non-overlapping marker gives two pieces exactly when it occurs once. */
  lemma TwoPiecesIffOnce(s: string, name: string)
    requires ';' !in name
    ensures |Split(s, Marker(name))| == 2 <==> OccursOnce(s, Marker(name))
  {
    var m := Marker(name);
    match IndexOf(s, m, 0)
    case None =>
      assert Split(s, m) == [s];
      assert forall j :: !OccursAt(s, m, j);
    case Some(i) =>
      var rest := IndexOf(s, m, i + |m|);
      assert Split(s, m) == [s[..i]] + SplitFrom(s, m, i + |m|);
      if rest.None? {
        assert |Split(s, m)| == 2;
        forall j | OccursAt(s, m, j) ensures j == i {
          if j < i {
          } else if j > i {
            MarkersApart(s, name, i, j);
          }
        }
        assert OccursOnce(s, m);
      } else {
        assert |SplitFrom(s, m, i + |m|)| >= 2;
        assert OccursAt(s, m, i) && OccursAt(s, m, rest.value) && i != rest.value;
        forall k | OccursAt(s, m, k) ensures exists j :: OccursAt(s, m, j) && j != k {
          if k == i {
            assert OccursAt(s, m, rest.value);
          } else {
            assert OccursAt(s, m, i);
          }
        }
      }
  }

  /**
   * The source's promise for a name without `;`: a value is returned exactly when the
   * marker occurs once in `"; " + cookie`, and it is the text after the marker up to the
   * next `;` (or the end), so it never contains `;`.
   */
  lemma GetCookieSpec(cookie: string, name: string)
    requires ';' !in name
    ensures var s, m := "; " + cookie, Marker(name);
      && (GetCookie(cookie, name).Some? <==> OccursOnce(s, m))
      && (GetCookie(cookie, name).Some? ==>
            var v := GetCookie(cookie, name).value;
            && ';' !in v
            && exists i :: ValueAfter(s, m, i, v))
  {
    var s, m := "; " + cookie, Marker(name);
    TwoPiecesIffOnce(s, name);
    if GetCookie(cookie, name).Some? {
      var i := IndexOf(s, m, 0).value;
      assert Split(s, m) == [s[..i]] + SplitFrom(s, m, i + |m|);
      var p := Split(s, m)[1];
      assert p == s[i + |m|..];
      var v := GetCookie(cookie, name).value;
      assert v == Split(p, ";")[0];
      FirstPiece(p, ";");
      PiecesFree(p, ";");
      forall k | 0 <= k < |v| ensures v[k] != ';' {
        assert v[k..k + 1] == [v[k]];
        assert !OccursAt(v, ";", k);
      }
      assert StartsWith(p, v);
      match IndexOf(p, ";", 0) {
        case None =>
        case Some(k) => assert p[k..k + 1] == ";";
      }
      assert ValueAfter(s, m, i, v);
    }
  }

  /** A cookie string holding the name once yields the value set for it. */
  lemma SingleCookie(name: string, value: string)
    requires ';' !in name && ';' !in value
    ensures GetCookie(name + "=" + value, name) == Some(value)
  {
    var s, m := "; " + (name + "=" + value), Marker(name);
    assert s == m + value;
    assert OccursAt(s, m, 0) by { assert s[0..|m|] == m; }
    forall p | 0 < p < |s| ensures s[p] != ';' {
      if p < |m| {
        assert s[p] == m[p];
        if p >= 2 && p < |m| - 1 {
          assert m[p] == name[p - 2];
        }
      } else {
        assert s[p] == value[p - |m|];
        assert value[p - |m|] in value;
      }
    }
    forall j | OccursAt(s, m, j) ensures j == 0 {
      assert s[j] == ';' by { assert s[j..j + |m|][0] == m[0]; }
    }
    assert OccursOnce(s, m);
    GetCookieSpec(name + "=" + value, name);
    var v := GetCookie(name + "=" + value, name).value;
    var i :| ValueAfter(s, m, i, v);
    assert i == 0;
    assert s[|m|..] == value;
    assert v == value[..|v|];
    assert |m| + |v| == |s|;
    assert v == value;
  }

  /** When the cookie was set twice, `getCookie` gives up: `undefined`. */
  lemma DuplicateCookie(name: string, first: string, second: string)
    requires ';' !in name
    ensures GetCookie(name + "=" + first + "; " + name + "=" + second, name).None?
  {
    var m := Marker(name);
    var cookie := name + "=" + first + "; " + name + "=" + second;
    var s := "; " + cookie;
    assert s == m + first + m + second;
    var i := |m| + |first|;
    assert OccursAt(s, m, 0) by { assert s[0..|m|] == m; }
    assert OccursAt(s, m, i) by { assert s[i..i + |m|] == m; }
    GetCookieSpec(cookie, name);
  }

  // ---------------------------------------------------------------------------------------
  // The language shown

  /** `getCookie("language") || "en"`: never empty. */
  function CurrentLanguage(cookie: string): (lang: string)
    ensures lang != ""
    ensures Filled(GetCookie(cookie, "language")) ==> lang == GetCookie(cookie, "language").value
    ensures !Filled(GetCookie(cookie, "language")) ==> lang == "en"
  {
    var v := GetCookie(cookie, "language");
    if Filled(v) then v.value else "en"
  }

  /** `languageMappings[language] || "EN"`. */
  function Label(language: string): (shown: string)
    ensures shown == "EN" || shown == "ES" || shown == "FR"
    ensures language == "es" ==> shown == "ES"
    ensures language == "fr" ==> shown == "FR"
    ensures language != "es" && language != "fr" ==> shown == "EN"
  {
    if language == "en" then "EN"
    else if language == "es" then "ES"
    else if language == "fr" then "FR"
    else "EN"
  }

  /** `queryLang || getCurrentLanguage()`: a non-empty `lang` parameter wins over the cookie. */
  function DisplayedLanguage(queryLang: Option<string>, cookie: string): (lang: string)
    ensures lang != ""
    ensures Filled(queryLang) ==> lang == queryLang.value
    ensures !Filled(queryLang) ==> lang == CurrentLanguage(cookie)
  {
    if Filled(queryLang) then queryLang.value else CurrentLanguage(cookie)
  }

  /** After choosing a language (cookie set, then `?lang=` reload) its label is shown. */
  lemma ChosenLanguageShown(chosen: string)
    requires chosen != "" && ';' !in chosen
    ensures Label(DisplayedLanguage(Some(chosen), "language=" + chosen)) == Label(chosen)
    ensures DisplayedLanguage(None, "language=" + chosen) == chosen
  {
    assert "language" + "=" + chosen == "language=" + chosen;
    SingleCookie("language", chosen);
  }
}
