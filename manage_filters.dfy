/**
 * The view filters of the management client
 * (open-hackathon-client/src/client/static/js/manage.filters.js).
 * JavaScript's null and undefined are None; `$translate.instant(key)` is
 * taken to return its key.
 */
module ManageFilters {
  import opened Wrappers
  import JsText

  // ---------------------------------------------------------------------
  // stripTags

  /** Length of the match of `/<[^>]+>/` that starts at `s[0]`, or 0 when none does. */
  function TagLength(s: string): (n: nat)
    ensures n > 0 ==> 3 <= n <= |s| && s[0] == '<' && s[n - 1] == '>' && forall j :: 1 <= j < n - 1 ==> s[j] != '>'
    ensures n == 0 ==> |s| == 0 || s[0] != '<' || (|s| > 1 && s[1] == '>') || '>' !in s[1..]
  {
    if |s| < 2 || s[0] != '<' || s[1] == '>' then 0
    else match JsText.FirstIndexOfChar(s[1..], '>')
      case None => 0
      case Some(k) => k + 2
  }

  /** Some tag `<...>` occurs in `s`. */
  predicate HasTag(s: string) {
    exists i :: 0 <= i < |s| && TagLength(s[i..]) > 0
  }

  /** `s.replace(/(<([^>]+)>)/ig, '')`: every tag, found left to right, is removed. */
  function RemoveTags(s: string): (r: string)
    ensures |r| <= |s|
    ensures forall c :: c in r ==> c in s
    ensures !HasTag(s) ==> r == s
    decreases |s|
  {
    if s == [] then []
    else
      var n := TagLength(s);
      if n > 0 then
        assert s[0..] == s;
        var rest := RemoveTags(s[n..]);
        assert forall c :: c in s[n..] ==> c in s;
        rest
      else
        var rest := RemoveTags(s[1..]);
        assert !HasTag(s) ==> !HasTag(s[1..]) by {
          forall i | 0 <= i < |s[1..]| ensures s[1..][i..] == s[i + 1..] {
          }
        }
        assert forall c :: c in s[1..] ==> c in s;
        [s[0]] + rest
  }

  /** The removal leaves a '>' at the front of what follows a kept '<'. */
  lemma RemoveTagsKeepsLeadingClose(t: string)
    requires |t| > 0 && t[0] == '>'
    ensures |RemoveTags(t)| > 0 && RemoveTags(t)[0] == '>'
  {
  }

  /** A character put in front of tag-free text starts no tag unless it is '<' followed by a closed tag body. */
  lemma NoTagInCons(c: char, rest: string)
    requires !HasTag(rest)
    requires c != '<' || rest == [] || rest[0] == '>' || '>' !in rest
    ensures !HasTag([c] + rest)
  {
    var r := [c] + rest;
    forall i | 0 <= i < |r| ensures TagLength(r[i..]) == 0 {
      if i > 0 {
        assert r[i..] == rest[i - 1..];
      } else {
        assert r[1..] == rest;
      }
    }
  }

  /** No tag remains after the removal: the replacement needs only one pass. */
  lemma {:induction false} RemoveTagsLeavesNoTag(s: string)
    ensures !HasTag(RemoveTags(s))
    decreases |s|
  {
    if s != [] {
      var n := TagLength(s);
      if n > 0 {
        RemoveTagsLeavesNoTag(s[n..]);
      } else {
        RemoveTagsLeavesNoTag(s[1..]);
        if s[0] == '<' && |s| > 1 && s[1] == '>' {
          RemoveTagsKeepsLeadingClose(s[1..]);
        }
        NoTagInCons(s[0], RemoveTags(s[1..]));
      }
    }
  }

  /** `&nbsp;` in any letter case starts at `s[0]`. */
  predicate NbspAt(s: string) {
    && |s| >= 6
    && s[0] == '&'
    && (s[1] == 'n' || s[1] == 'N')
    && (s[2] == 'b' || s[2] == 'B')
    && (s[3] == 's' || s[3] == 'S')
    && (s[4] == 'p' || s[4] == 'P')
    && s[5] == ';'
  }

  predicate HasNbsp(s: string) {
    exists i :: 0 <= i < |s| && NbspAt(s[i..])
  }

  /** `s.replace(/&nbsp;/ig, '')`. */
  function RemoveNbsp(s: string): (r: string)
    ensures |r| <= |s|
    ensures !HasNbsp(s) ==> r == s
    decreases |s|
  {
    if s == [] then []
    else if NbspAt(s) then
      assert s[0..] == s;
      RemoveNbsp(s[6..])
    else
      var rest := RemoveNbsp(s[1..]);
      assert !HasNbsp(s) ==> !HasNbsp(s[1..]) by {
        forall i | 0 <= i < |s[1..]| ensures s[1..][i..] == s[i + 1..] {
        }
      }
      [s[0]] + rest
  }

  /**
   * `stripTags`: a missing or empty input gives '', the output is never
   * longer than the input, and an input without tags or `&nbsp;` comes back unchanged.
   */
  function StripTags(html: Option<string>): (r: string)
    ensures html.None? || html.value == "" ==> r == ""
    ensures |r| <= |html.GetOr("")|
    ensures html.Some? && !HasTag(html.value) && !HasNbsp(html.value) ==> r == html.value
  {
    var s := html.GetOr("");
    RemoveNbsp(RemoveTags(s))
  }

  // ---------------------------------------------------------------------
  // split, defBanner

  /**
   * `limit || ','` in `split` and `filler || ','` in the join filters: the
   * separator given, or ',' when none or an empty one is given.
   */
  function Separator(limit: Option<string>): (sep: string)
    ensures |sep| > 0
    ensures limit.Some? && limit.value != "" ==> sep == limit.value
    ensures limit.None? || limit.value == "" ==> sep == ","
  {
    if limit.None? || limit.value == "" then "," else limit.value
  }

  /**
   * `split`: [] for a missing or empty text; otherwise the pieces between
   * separators, none containing it, which joined with it give back the text.
   */
  function Split(text: Option<string>, limit: Option<string>): (r: seq<string>)
    ensures text.None? || text.value == "" ==> r == []
    ensures text.Some? && text.value != "" ==>
      && |r| >= 1
      && JsText.Join(r, Separator(limit)) == text.value
      && forall p :: p in r ==> forall j :: !JsText.OccursAt(p, Separator(limit), j)
  {
    if text.None? || text.value == "" then []
    else
      JsText.JoinSplit(text.value, Separator(limit));
      JsText.SplitPiecesLackSeparator(text.value, Separator(limit));
      JsText.SplitOn(text.value, Separator(limit))
  }

  const DEFAULT_BANNER: string := "/static/pic/homepage.jpg"

  /** `defBanner`: the first banner, or the default picture when there is none. */
  function DefBanner(banners: seq<string>): (r: string)
    ensures |banners| > 0 ==> r == banners[0]
    ensures |banners| == 0 ==> r == DEFAULT_BANNER
    ensures r in banners || r == DEFAULT_BANNER
  {
    if |banners| > 0 then banners[0] else DEFAULT_BANNER
  }

  // ---------------------------------------------------------------------
  // isProvider, inArray

  /** `parseInt(providers, 10) || 0`: NaN (and 0) become 0. */
  function ParseProviders(providers: string): (p: int)
    ensures JsText.ParseInt(providers, 10).None? ==> p == 0
    ensures JsText.ParseInt(providers, 10).Some? ==> p == JsText.ParseInt(providers, 10).value
  {
    match JsText.ParseInt(providers, 10)
    case None => 0
    case Some(n) => n
  }

  /**
   * `isProvider`: `value == (providers & value)`. Only 32-bit values can
   * pass, and 0 always does.
   */
  function IsProvider(providers: string, value: int): (r: bool)
    ensures r ==> -JsText.TWO_31 <= value < JsText.TWO_31
    ensures value == 0 ==> r
  {
    JsText.AndBitsZero(JsText.ToUint32(ParseProviders(providers)), 32);
    value == JsText.BitAnd(ParseProviders(providers), value)
  }

  /** For a value in the non-negative 32-bit range: true exactly when its bits are all set in the providers mask. */
  lemma IsProviderIffBitsWithin(providers: string, value: int)
    requires 0 <= value < JsText.TWO_31
    ensures IsProvider(providers, value) <==> JsText.BitsWithin(value, JsText.ToUint32(ParseProviders(providers)))
  {
    JsText.BitAndKeepsValue(ParseProviders(providers), value);
  }

  /** Unparsable providers count as 0, which provides only the value 0. */
  lemma UnparsableProvidesNothing(providers: string, value: int)
    requires JsText.ParseInt(providers, 10).None?
    ensures IsProvider(providers, value) <==> value == 0
  {
    JsText.AndBitsZero(JsText.ToUint32(value), 32);
  }

  /** A numeric `providers` is read through its decimal string and acts as itself. */
  lemma NumericProviders(p: nat, value: int)
    ensures IsProvider(JsText.DecimalString(p), value) == (value == JsText.BitAnd(p, value))
  {
    JsText.ParseDecimalString(p, 10);
  }

  /** `inArray`: whether `value` occurs in the array; a missing array holds nothing. */
  function InArray<T(==)>(items: Option<seq<T>>, value: T): (r: bool)
    ensures r <==> items.Some? && value in items.value
  {
    JsText.IndexOf(items.GetOr([]), value) != -1
  }

  // ---------------------------------------------------------------------
  // joinEmails, joinVMs

  /** A list entry: its own keys, each with a string value or null/undefined (None). */
  type JsObject = map<string, Option<string>>

  /** The values under `key` of the entries that have that key, in list order. */
  function FieldValues(list: seq<JsObject>, key: string): (vals: seq<Option<string>>)
    ensures |vals| <= |list|
    ensures vals == [] <==> forall o :: o in list ==> key !in o
    ensures forall v :: v in vals ==> exists o :: o in list && key in o && o[key] == v
  {
    if list == [] then []
    else
      var rest := FieldValues(list[1..], key);
      assert forall o :: o in list[1..] ==> o in list;
      assert forall o :: o in list ==> o == list[0] || o in list[1..];
      if key in list[0] then [list[0][key]] + rest else rest
  }

  /** Walking the list front to back pushes exactly the values of the entries that have the key. */
  lemma {:induction false} FieldValuesAppend(list: seq<JsObject>, o: JsObject, key: string)
    ensures FieldValues(list + [o], key) == FieldValues(list, key) + (if key in o then [o[key]] else [])
  {
    if list != [] {
      assert (list + [o])[1..] == list[1..] + [o];
      FieldValuesAppend(list[1..], o, key);
    }
  }

  /**
   * The loop shared by `joinEmails` and `joinVMs`: push the `key` value of
   * every entry that has `key`, then join with the filler; '' for a missing list.
   */
  method JoinField(list: Option<seq<JsObject>>, filler: Option<string>, key: string) returns (r: string)
    ensures list.None? ==> r == ""
    ensures list.Some? ==> r == JsText.ArrayJoin(FieldValues(list.value, key), Separator(filler))
  {
    var sep := Separator(filler);
    if list.None? {
      return "";
    }
    var entries := list.value;
    var collected: seq<Option<string>> := [];
    var index := 0;
    while index < |entries|
      invariant 0 <= index <= |entries|
      invariant collected == FieldValues(entries[..index], key)
    {
      FieldValuesAppend(entries[..index], entries[index], key);
      assert entries[..index + 1] == entries[..index] + [entries[index]];
      if key in entries[index] {
        collected := collected + [entries[index][key]];
      }
      index := index + 1;
    }
    assert entries[..index] == entries;
    r := JsText.ArrayJoin(collected, sep);
  }

  /** `joinEmails`. */
  method JoinEmails(list: Option<seq<JsObject>>, filler: Option<string>) returns (r: string)
    ensures list.None? ==> r == ""
    ensures list.Some? ==> r == JsText.ArrayJoin(FieldValues(list.value, "email"), Separator(filler))
  {
    r := JoinField(list, filler, "email");
  }

  /** `joinVMs`. */
  method JoinVMs(list: Option<seq<JsObject>>, filler: Option<string>) returns (r: string)
    ensures list.None? ==> r == ""
    ensures list.Some? ==> r == JsText.ArrayJoin(FieldValues(list.value, "name"), Separator(filler))
  {
    r := JoinField(list, filler, "name");
  }

  /**
   * The `split` filter undoes a join over a one-character filler: when no
   * value contains the filler and the join is not empty, splitting it gives
   * back the rendered values.
   */
  lemma SplitUndoesJoinField(list: seq<JsObject>, key: string, c: char)
    requires forall v :: v in FieldValues(list, key) ==> c !in v.GetOr("")
    requires JsText.ArrayJoin(FieldValues(list, key), [c]) != ""
    ensures Split(Some(JsText.ArrayJoin(FieldValues(list, key), [c])), Some([c])) ==
            JsText.Rendered(FieldValues(list, key))
  {
    var vals := FieldValues(list, key);
    var parts := JsText.Rendered(vals);
    assert |parts| >= 1;
    forall p | p in parts ensures c !in p {
      var i :| 0 <= i < |parts| && parts[i] == p;
      assert vals[i] in vals;
    }
    JsText.SplitJoin(parts, c);
  }

  // ---------------------------------------------------------------------
  // Status labels

  /** `imageStatus`. */
  function ImageStatus(status: int): (caption: string)
    ensures caption != "" <==> 0 <= status <= 2
  {
    match status
    case 0 => "TEMPLATE_STATUS.UNAPPROVED"
    case 1 => "TEMPLATE_STATUS.PASS"
    case 2 => "TEMPLATE_STATUS.FAIL"
    case _ => ""
  }

  /** `hackUserStatus`. */
  function HackUserStatus(status: int): (caption: string)
    ensures caption != "" <==> 0 <= status <= 3
  {
    match status
    case 0 => "HACK_USER_STATUS.NOAUDIT"
    case 1 => "HACK_USER_STATUS.AUDIT_PASSED"
    case 2 => "HACK_USER_STATUS.AUDIT_REFUSE"
    case 3 => "HACK_USER_STATUS.AUTO_PASSED"
    case _ => ""
  }

  /** `hackUserType`. */
  function HackUserType(userType: int): (caption: string)
    ensures caption != "" <==> 0 <= userType <= 3
  {
    match userType
    case 0 => "HACK_USER_TYPE.VISITOR"
    case 1 => "HACK_USER_TYPE.ADMIN"
    case 2 => "HACK_USER_TYPE.JUDGE"
    case 3 => "HACK_USER_TYPE.COMPETITOR"
    case _ => ""
  }

  /** `exprStatus`: no label for 4. */
  function ExprStatus(status: int): (caption: string)
    ensures caption != "" <==> 0 <= status <= 8 && status != 4
  {
    match status
    case 0 => "EXPERIMENT_STATUS.INIT"
    case 1 => "EXPERIMENT_STATUS.STARTING"
    case 2 => "EXPERIMENT_STATUS.RUNNING"
    case 3 => "EXPERIMENT_STATUS.STOPPED"
    case 5 => "EXPERIMENT_STATUS.FAILED"
    case 6 => "EXPERIMENT_STATUS.ROLL_BACKING"
    case 7 => "EXPERIMENT_STATUS.ROLL_BACKED"
    case 8 => "EXPERIMENT_STATUS.UNEXPCTED_ERROR"
    case _ => ""
  }

  /** `organizationType`: the input goes through `parseInt` (no radix) first. */
  function OrganizationType(orgType: string): (caption: string)
    ensures caption != "" <==> JsText.ParseInt(orgType, 0) == Some(1) || JsText.ParseInt(orgType, 0) == Some(2)
  {
    match JsText.ParseInt(orgType, 0)
    case Some(1) => "ORGANIZATION_TYPE.ORGANIZER"
    case Some(2) => "ORGANIZATION_TYPE.PARTNER"
    case _ => ""
  }

  /** Each status table gives different codes different labels, so a label names its code. */
  lemma StatusLabelsDetermineCodes(a: int, b: int)
    ensures ImageStatus(a) != "" && ImageStatus(a) == ImageStatus(b) ==> a == b
    ensures HackUserStatus(a) != "" && HackUserStatus(a) == HackUserStatus(b) ==> a == b
    ensures HackUserType(a) != "" && HackUserType(a) == HackUserType(b) ==> a == b
    ensures ExprStatus(a) != "" && ExprStatus(a) == ExprStatus(b) ==> a == b
  {
  }

  /** The organisation codes as the client sends them: numbers, as decimal strings. */
  lemma OrganizationTypeOfNumbers(n: nat)
    ensures OrganizationType(JsText.DecimalString(n)) ==
      (if n == 1 then "ORGANIZATION_TYPE.ORGANIZER" else if n == 2 then "ORGANIZATION_TYPE.PARTNER" else "")
  {
    JsText.ParseDecimalString(n, 0);
  }
}
