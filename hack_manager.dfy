/**
 * The decision logic of the hackathon manager (`HackathonManager` in
 * open-hackathon/src/hackathon/hack/__init__.py), over an in-memory store
 * that stands in for the database tables of hackathons, users,
 * registrations (UserHackathonRel) and admin relations (AdminHackathonRel).
 */
module HackManager {
  import opened Wrappers
  import opened HackathonResponse

  /** Registration statuses counted by the statistics (RGStatus). */
  const AUDIT_PASSED: int := 1
  const AUTO_PASSED: int := 3

  /** ADMIN_ROLE_TYPE.ADMIN, the role given to the creator of a hackathon. */
  const ADMIN_ROLE_ADMIN: int := 1

  /** An admin relation with this hackathon id grants every hackathon. */
  const ALL_HACKATHONS: int := -1

  /** Keys of the flags read from a hackathon's basic_info (HACKATHON_BASIC_INFO). */
  const AUTO_APPROVE: string := "auto_approve"
  const RECYCLE_ENABLED: string := "recycle_enabled"

  /** The columns that an update never writes. */
  const CREATOR_ID: string := "creator_id"
  const CREATE_TIME: string := "create_time"
  const UPDATE_TIME: string := "update_time"
  const ID: string := "id"

  /** A column value, or a value passed in the request arguments. */
  datatype Value = Null | Int(i: int) | Str(s: string) | Time(t: int)

  /**
   * A stored hackathon: its primary key and its other columns by name
   * (`name`, `basic_info`, `creator_id`, `create_time`, ...).
   */
  datatype Hackathon = Hackathon(id: int, columns: map<string, Value>)

  datatype User = User(id: int, online: int)

  /** A registration of a user for a hackathon (UserHackathonRel). */
  datatype Registration = Registration(userId: int, hackathonId: int, status: int, deleted: int)

  /** An admin relation between a user and a hackathon (AdminHackathonRel). */
  datatype AdminRel = AdminRel(userId: int, roleType: int, hackathonId: int, status: int, remarks: string, createTime: int)

  /** The tables, with the next primary key the hackathon table hands out. */
  datatype Db = Db(hackathons: seq<Hackathon>, users: seq<User>, registers: seq<Registration>,
                   adminRels: seq<AdminRel>, nextId: int)

  /** A column of a stored hackathon; a column that is not set reads as NULL. */
  function Column(h: Hackathon, key: string): Value {
    if key == ID then Int(h.id) else if key in h.columns then h.columns[key] else Null
  }

  /** `hackathon.dic()`: the record as a dictionary, primary key included. */
  function Dic(h: Hackathon): map<string, Value> {
    h.columns[ID := Int(h.id)]
  }

  /** The constraints the database keeps: primary keys and hackathon names are unique. */
  ghost predicate Valid(db: Db) {
    && 0 < db.nextId
    && (forall h :: h in db.hackathons ==> 0 < h.id < db.nextId && ID !in h.columns)
    && (forall i, j :: 0 <= i < j < |db.hackathons| ==> db.hackathons[i].id != db.hackathons[j].id)
    && (forall i, j :: 0 <= i < j < |db.hackathons| && Column(db.hackathons[i], "name").Str? ==>
          Column(db.hackathons[i], "name") != Column(db.hackathons[j], "name"))
    && (forall i, j :: 0 <= i < j < |db.users| ==> db.users[i].id != db.users[j].id)
  }

  // ---------------------------------------------------------------------
  // Lookup (find_first_object_by)

  /** Position of the first hackathon whose column `key` equals `v`. */
  function FirstIndexWhere(hs: seq<Hackathon>, key: string, v: Value): (r: Option<nat>)
    ensures r.Some? ==> r.value < |hs| && Column(hs[r.value], key) == v
    ensures r.Some? ==> forall j :: 0 <= j < r.value ==> Column(hs[j], key) != v
    ensures r.None? ==> forall j :: 0 <= j < |hs| ==> Column(hs[j], key) != v
  {
    if hs == [] then None
    else if Column(hs[0], key) == v then Some(0)
    else match FirstIndexWhere(hs[1..], key, v)
      case None => None
      case Some(k) => Some(k + 1)
  }

  /** The first hackathon whose column `key` equals `v`, if there is one. */
  function FirstWhere(hs: seq<Hackathon>, key: string, v: Value): (r: Option<Hackathon>)
    ensures r.Some? ==> r.value in hs && Column(r.value, key) == v
    ensures r.None? <==> forall h :: h in hs ==> Column(h, key) != v
  {
    match FirstIndexWhere(hs, key, v)
    case None => None
    case Some(k) => Some(hs[k])
  }

  function GetHackathonByName(db: Db, name: Value): Option<Hackathon> {
    FirstWhere(db.hackathons, "name", name)
  }

  function GetHackathonById(db: Db, hackathonId: Value): Option<Hackathon> {
    FirstWhere(db.hackathons, ID, hackathonId)
  }

  /**
   * `get_hackathon_by_name_or_id`: by id when an id is given (the name is
   * then not looked at), by name when the id is None.
   */
  function GetHackathonByNameOrId(db: Db, hackId: Value, name: Value): (r: Option<Hackathon>)
    ensures hackId != Null ==> (r.Some? <==> exists h :: h in db.hackathons && Int(h.id) == hackId)
    ensures hackId != Null && r.Some? ==> r.value in db.hackathons && Int(r.value.id) == hackId
    ensures hackId == Null ==> (r.Some? <==> exists h :: h in db.hackathons && Column(h, "name") == name)
    ensures hackId == Null && r.Some? ==> r.value in db.hackathons && Column(r.value, "name") == name
  {
    if hackId == Null then GetHackathonByName(db, name) else GetHackathonById(db, hackId)
  }

  /** With an id supplied, the name argument makes no difference. */
  lemma NameIgnoredWhenIdGiven(db: Db, hackId: Value, name1: Value, name2: Value)
    requires hackId != Null
    ensures GetHackathonByNameOrId(db, hackId, name1) == GetHackathonByNameOrId(db, hackId, name2)
    ensures GetHackathonByNameOrId(db, hackId, name1) == GetHackathonById(db, hackId)
  {
  }

  /** In a valid store at most one hackathon has a given id, so lookup by id finds that one. */
  lemma LookupByIdIsUnique(db: Db, k: nat)
    requires Valid(db) && k < |db.hackathons|
    ensures GetHackathonById(db, Int(db.hackathons[k].id)) == Some(db.hackathons[k])
  {
    var hs := db.hackathons;
    var r := FirstIndexWhere(hs, ID, Int(hs[k].id));
    assert Column(hs[k], ID) == Int(hs[k].id);
    assert r.Some? && r.value <= k;
  }

  /**
   * `validate_hackathon_name`: the hackathon named by the request header
   * (the value stored in `g.hackathon`), or None when the header is missing
   * or names no hackathon.
   */
  function ValidateHackathonName(db: Db, header: Option<string>): (r: Option<Hackathon>)
    ensures r.Some? <==> header.Some? && exists h :: h in db.hackathons && Column(h, "name") == Str(header.value)
    ensures r.Some? ==> r.value in db.hackathons && Column(r.value, "name") == Str(header.value)
  {
    if header.None? then None else GetHackathonByName(db, Str(header.value))
  }

  // ---------------------------------------------------------------------
  // Admin permissions

  /** The user has an admin relation on hackathon id `hid`. */
  ghost predicate Grants(rels: seq<AdminRel>, userId: int, hid: int) {
    exists r :: r in rels && r.userId == userId && r.hackathonId == hid
  }

  /**
   * `get_permitted_hackathon_ids_by_admin_user_id`: the hackathon ids of the
   * user's admin relations, each once.
   */
  function PermittedHackathonIds(rels: seq<AdminRel>, userId: int): (ids: seq<int>)
    ensures forall i, j :: 0 <= i < j < |ids| ==> ids[i] != ids[j]
    ensures forall hid :: hid in ids <==> Grants(rels, userId, hid)
  {
    if rels == [] then []
    else
      var rest := PermittedHackathonIds(rels[1..], userId);
      assert forall hid :: Grants(rels, userId, hid) <==>
        (rels[0].userId == userId && rels[0].hackathonId == hid) || Grants(rels[1..], userId, hid) by {
        forall hid ensures Grants(rels, userId, hid) ==>
          (rels[0].userId == userId && rels[0].hackathonId == hid) || Grants(rels[1..], userId, hid) {
          if Grants(rels, userId, hid) {
            var r :| r in rels && r.userId == userId && r.hackathonId == hid;
            if r != rels[0] {
              assert r in rels[1..];
            }
          }
        }
      }
      if rels[0].userId == userId && rels[0].hackathonId !in rest then [rels[0].hackathonId] + rest
      else rest
  }

  /** `__validate_admin_privilege`: the user administers this hackathon or all of them. */
  function ValidateAdminPrivilege(db: Db, userId: int, hackathonId: int): (r: bool)
    ensures r <==> Grants(db.adminRels, userId, ALL_HACKATHONS) || Grants(db.adminRels, userId, hackathonId)
  {
    var ids := PermittedHackathonIds(db.adminRels, userId);
    ALL_HACKATHONS in ids || hackathonId in ids
  }

  /** The hackathons, in table order, whose id is in `ids`. */
  function HackathonsWithIdIn(hs: seq<Hackathon>, ids: seq<int>): (r: seq<Hackathon>)
    ensures |r| <= |hs|
    ensures forall h :: h in r <==> h in hs && h.id in ids
  {
    if hs == [] then []
    else if hs[0].id in ids then [hs[0]] + HackathonsWithIdIn(hs[1..], ids)
    else HackathonsWithIdIn(hs[1..], ids)
  }

  /**
   * `get_permitted_hackathon_list_by_admin_user_id`: every hackathon for a
   * user holding the wildcard relation, otherwise those the user administers.
   */
  function PermittedHackathonList(db: Db, userId: int): (r: seq<Hackathon>)
    ensures Grants(db.adminRels, userId, ALL_HACKATHONS) ==> r == db.hackathons
    ensures !Grants(db.adminRels, userId, ALL_HACKATHONS) ==>
      forall h :: h in r <==> h in db.hackathons && Grants(db.adminRels, userId, h.id)
  {
    var ids := PermittedHackathonIds(db.adminRels, userId);
    if ALL_HACKATHONS in ids then db.hackathons else HackathonsWithIdIn(db.hackathons, ids)
  }

  /** Every hackathon in the permitted list passes the privilege check, and no other does. */
  lemma PermittedListAgreesWithPrivilege(db: Db, userId: int, h: Hackathon)
    requires h in db.hackathons
    ensures h in PermittedHackathonList(db, userId) <==> ValidateAdminPrivilege(db, userId, h.id)
  {
  }

  // ---------------------------------------------------------------------
  // basic_info flags

  /** A value as `json.loads` returns it. */
  datatype Json =
    | JNull
    | JBool(b: bool)
    | JInt(n: int)
    | JReal(r: real)
    | JStr(s: string)
    | JArray(items: seq<Json>)
    | JObject(fields: map<string, Json>)

  /** Python's `v == 1` on a parsed JSON value: the integer 1, the float 1.0, and also `True`. */
  predicate EqualsOne(v: Json) {
    v == JInt(1) || v == JReal(1.0) || v == JBool(true)
  }

  /**
   * `basic_info[key] == 1` inside a try whose except returns False:
   * `parsed` is the result of `json.loads(basic_info)` (None when it raises).
   * Indexing anything but an object, or a missing key, raises and gives false.
   */
  function BasicInfoFlag(parsed: Option<Json>, key: string): (r: bool)
    ensures r <==>
      && parsed.Some? && parsed.value.JObject? && key in parsed.value.fields
      && (|| parsed.value.fields[key] == JInt(1)
          || parsed.value.fields[key] == JReal(1.0)
          || parsed.value.fields[key] == JBool(true))
  {
    match parsed
    case Some(JObject(fields)) => key in fields && EqualsOne(fields[key])
    case _ => false
  }

  /** `is_auto_approve`: set exactly when `basic_info` is an object whose `auto_approve` equals 1. */
  function IsAutoApprove(parsed: Option<Json>): (r: bool)
    ensures r <==> parsed.Some? && parsed.value.JObject? && AUTO_APPROVE in parsed.value.fields
                   && EqualsOne(parsed.value.fields[AUTO_APPROVE])
  {
    BasicInfoFlag(parsed, AUTO_APPROVE)
  }

  /** `is_recycle_enabled`: set exactly when `basic_info` is an object whose `recycle_enabled` equals 1. */
  function IsRecycleEnabled(parsed: Option<Json>): (r: bool)
    ensures r <==> parsed.Some? && parsed.value.JObject? && RECYCLE_ENABLED in parsed.value.fields
                   && EqualsOne(parsed.value.fields[RECYCLE_ENABLED])
  {
    BasicInfoFlag(parsed, RECYCLE_ENABLED)
  }

  /** The two flags are read from their own keys: setting one leaves the other as it was. */
  lemma FlagsAreIndependent(fields: map<string, Json>, v: Json)
    ensures IsAutoApprove(Some(JObject(fields[RECYCLE_ENABLED := v]))) == IsAutoApprove(Some(JObject(fields)))
    ensures IsRecycleEnabled(Some(JObject(fields[AUTO_APPROVE := v]))) == IsRecycleEnabled(Some(JObject(fields)))
  {
  }

  // ---------------------------------------------------------------------
  // Registration statistics

  predicate Passed(r: Registration, hid: int) {
    r.hackathonId == hid && r.deleted != 1 && (r.status == AUTO_PASSED || r.status == AUDIT_PASSED)
  }

  /** The registrations of hackathon `hid` that are not deleted and were approved. */
  function PassedRegistrations(regs: seq<Registration>, hid: int): (r: seq<Registration>)
    ensures |r| <= |regs|
    ensures forall x :: x in r <==> x in regs && Passed(x, hid)
  {
    if regs == [] then []
    else if Passed(regs[0], hid) then [regs[0]] + PassedRegistrations(regs[1..], hid)
    else PassedRegistrations(regs[1..], hid)
  }

  /**
   * The filter keeps every copy of an approved registration and drops every
   * copy of the others, so the total counts rows, not distinct values.
   */
  lemma {:induction false} PassedRegistrationsCounts(regs: seq<Registration>, hid: int, x: Registration)
    ensures multiset(PassedRegistrations(regs, hid))[x] == if Passed(x, hid) then multiset(regs)[x] else 0
  {
    if regs != [] {
      PassedRegistrationsCounts(regs[1..], hid, x);
      assert regs == [regs[0]] + regs[1..];
      assert multiset(regs) == multiset{regs[0]} + multiset(regs[1..]);
      var rest := PassedRegistrations(regs[1..], hid);
      if Passed(regs[0], hid) {
        assert multiset([regs[0]] + rest) == multiset{regs[0]} + multiset(rest);
      }
    }
  }

  /** `db.count(User, User.id.in_(ids) & (User.online == 1))`. */
  function OnlineCount(users: seq<User>, ids: set<int>): (n: nat)
    ensures n <= |users|
    ensures n == 0 <==> forall u :: u in users ==> !(u.id in ids && u.online == 1)
  {
    if users == [] then 0
    else
      assert forall u :: u in users <==> u == users[0] || u in users[1..];
      (if users[0].id in ids && users[0].online == 1 then 1 else 0) + OnlineCount(users[1..], ids)
  }

  /** Users whose id is `x` are the only ones that can count for `x`. */
  lemma {:induction false} OnlineCountWithout(users: seq<User>, ids: set<int>, x: int)
    requires forall u :: u in users ==> u.id != x
    ensures OnlineCount(users, ids - {x}) == OnlineCount(users, ids)
  {
    if users != [] {
      assert users[0] in users;
      OnlineCountWithout(users[1..], ids, x);
    }
  }

  /** With distinct user ids, at most one user is counted per id asked for. */
  lemma {:induction false} OnlineCountBound(users: seq<User>, ids: set<int>)
    requires forall i, j :: 0 <= i < j < |users| ==> users[i].id != users[j].id
    ensures OnlineCount(users, ids) <= |ids|
  {
    if users != [] {
      var x, rest := users[0].id, users[1..];
      assert forall i, j :: 0 <= i < j < |rest| ==> rest[i].id != rest[j].id by {
        forall i, j | 0 <= i < j < |rest| ensures rest[i].id != rest[j].id {
          assert rest[i] == users[i + 1] && rest[j] == users[j + 1];
        }
      }
      if x in ids && users[0].online == 1 {
        forall u | u in rest ensures u.id != x {
          var k :| 0 <= k < |rest| && rest[k] == u;
          assert users[k + 1] == u;
        }
        OnlineCountBound(rest, ids - {x});
        OnlineCountWithout(rest, ids, x);
      } else {
        OnlineCountBound(rest, ids);
      }
    }
  }

  /** A list has at least as many entries as it has distinct values. */
  lemma {:induction false} DistinctValuesBound(xs: seq<int>)
    ensures |set x | x in xs| <= |xs|
  {
    if xs != [] {
      DistinctValuesBound(xs[1..]);
      assert (set x | x in xs) == (set x | x in xs[1..]) + {xs[0]};
    }
  }

  datatype Stat = Stat(total: nat, hid: int, online: int, offline: int)

  // ---------------------------------------------------------------------
  // Create and update

  /** What `create_new_hackathon` returns: the new id, an error response, or Python's None. */
  datatype CreateResult = NewId(id: int) | Rejected(response: Response) | NoValue

  const NAME_MISSING_MESSAGE: string := "hackathon name already exist"
  const UPDATE_KEYS_MISSING_MESSAGE: string := "name or id are both required when update a hackathon"
  const UPDATE_MISMATCH_MESSAGE: string := "name and id are not matched in hackathon"
  const UPDATE_OK_MESSAGE: string := "update hackathon succeed"
  const UPDATE_FAILED_MESSAGE: string := "fail to update hackathon"

  /**
   * The columns of a newly created hackathon: the request arguments, with
   * both timestamps set to now and the creator set to the current user
   * (the primary key comes from the store, not from the arguments).
   */
  function CreatedColumns(args: map<string, Value>, currentUserId: int, now: int): (cols: map<string, Value>)
    ensures cols.Keys == args.Keys - {ID} + {UPDATE_TIME, CREATE_TIME, CREATOR_ID}
    ensures cols[UPDATE_TIME] == Time(now) && cols[CREATE_TIME] == Time(now)
    ensures cols[CREATOR_ID] == Int(currentUserId)
    ensures forall k :: k in args && k !in {ID, UPDATE_TIME, CREATE_TIME, CREATOR_ID} ==> cols[k] == args[k]
  {
    (args - {ID})[UPDATE_TIME := Time(now)][CREATE_TIME := Time(now)][CREATOR_ID := Int(currentUserId)]
  }

  /** The admin relation that makes the creator an admin of the new hackathon. */
  function CreatorRel(userId: int, hackathonId: int, now: int): (rel: AdminRel)
    ensures rel.userId == userId && rel.hackathonId == hackathonId && rel.roleType == ADMIN_ROLE_ADMIN
    ensures rel.status == 1 && rel.remarks == "creator" && rel.createTime == now
  {
    AdminRel(userId, ADMIN_ROLE_ADMIN, hackathonId, 1, "creator", now)
  }

  /** The creator of a hackathon passes the privilege check on it. */
  lemma CreatorHasPrivilege(db: Db, userId: int, hackathonId: int, now: int)
    ensures ValidateAdminPrivilege(db.(adminRels := db.adminRels + [CreatorRel(userId, hackathonId, now)]), userId, hackathonId)
  {
    var rels := db.adminRels + [CreatorRel(userId, hackathonId, now)];
    assert rels[|rels| - 1] in rels;
  }

  /**
   * Appending a hackathon with the next id, no stored "id" column and a name
   * no stored hackathon has, together with an admin relation, keeps the
   * store valid.
   */
  lemma AppendKeepsValid(db: Db, h: Hackathon, rel: AdminRel)
    requires Valid(db)
    requires h.id == db.nextId && ID !in h.columns
    requires forall g :: g in db.hackathons ==> Column(g, "name") != Column(h, "name")
    ensures Valid(db.(hackathons := db.hackathons + [h], nextId := db.nextId + 1).(adminRels := db.adminRels + [rel]))
  {
    var hs := db.hackathons + [h];
    forall i | 0 <= i < |db.hackathons| ensures hs[i].id != h.id && Column(hs[i], "name") != Column(h, "name") {
      assert db.hackathons[i] in db.hackathons;
    }
  }

  /** Where an update stops before writing, or the position of the record it writes. */
  datatype UpdateTarget = Located(index: nat) | Early(outcome: Outcome<Response>)

  /**
   * The checks of `update_hackathon` before its try block: both keys
   * present, a hackathon with that name (else `hackathon.id` raises on
   * None), and that hackathon's id equal to the given one.
   */
  function LocateForUpdate(db: Db, args: map<string, Value>): (t: UpdateTarget)
    ensures (ID !in args || "name" !in args) <==> t == Early(Returned(BadRequest(UPDATE_KEYS_MISSING_MESSAGE)))
    ensures t.Early? && t.outcome.Raised? <==>
      ID in args && "name" in args && forall h :: h in db.hackathons ==> Column(h, "name") != args["name"]
    ensures t.Located? ==>
      && ID in args && "name" in args
      && t.index < |db.hackathons|
      && Column(db.hackathons[t.index], "name") == args["name"]
      && Int(db.hackathons[t.index].id) == args[ID]
    ensures t.Early? && t.outcome == Returned(BadRequest(UPDATE_MISMATCH_MESSAGE)) <==>
      ID in args && "name" in args && (exists h :: h in db.hackathons && Column(h, "name") == args["name"])
      && Int(db.hackathons[FirstIndexWhere(db.hackathons, "name", args["name"]).value].id) != args[ID]
    ensures t.Early? ==> t.outcome in {Returned(BadRequest(UPDATE_KEYS_MISSING_MESSAGE)), Raised("AttributeError"),
                                      Returned(BadRequest(UPDATE_MISMATCH_MESSAGE))}
    ensures t.Located? ==> forall j :: 0 <= j < t.index ==> Column(db.hackathons[j], "name") != args["name"]
  {
    if "name" !in args || ID !in args then Early(Returned(BadRequest(UPDATE_KEYS_MISSING_MESSAGE)))
    else match FirstIndexWhere(db.hackathons, "name", args["name"])
      case None => Early(Raised("AttributeError"))
      case Some(k) =>
        if Int(db.hackathons[k].id) != args[ID] then Early(Returned(BadRequest(UPDATE_MISMATCH_MESSAGE)))
        else Located(k)
  }

  /** `dict(args.viewitems() - hackathon.dic().viewitems())`: the arguments that differ from the record. */
  function ChangedFields(h: Hackathon, args: map<string, Value>): (changed: map<string, Value>)
    ensures changed.Keys <= args.Keys
    ensures forall k :: k in changed ==> changed[k] == args[k]
    ensures forall k :: k in args ==> (k in changed <==> k !in Dic(h) || Dic(h)[k] != args[k])
    ensures ID in args && args[ID] == Int(h.id) ==> ID !in changed
  {
    map k | k in args && !(k in Dic(h) && Dic(h)[k] == args[k]) :: args[k]
  }

  /** Both keys, a stored name and that record's own id: the update goes ahead, on the first record with the name. */
  lemma MatchingRequestIsLocated(db: Db, k: nat, args: map<string, Value>)
    requires k < |db.hackathons| && "name" in args && ID in args
    requires Column(db.hackathons[k], "name") == args["name"] && args[ID] == Int(db.hackathons[k].id)
    requires forall j :: 0 <= j < k ==> Column(db.hackathons[j], "name") != args["name"]
    ensures LocateForUpdate(db, args) == Located(k)
  {
    var r := FirstIndexWhere(db.hackathons, "name", args["name"]);
    assert r.Some?;
    assert r.value == k;
  }

  /** The changed fields with `update_time` stamped, before the protected keys are popped. */
  function StagedItems(h: Hackathon, args: map<string, Value>, now: int): map<string, Value> {
    ChangedFields(h, args)[UPDATE_TIME := Time(now)]
  }

  /**
   * The three `update_items.pop(key)` calls as written: `pop` without a
   * default raises KeyError (None here) when the key is absent.
   */
  function PopProtectedAsWritten(items: map<string, Value>): (r: Option<map<string, Value>>)
    ensures r.Some? <==> CREATOR_ID in items && CREATE_TIME in items && ID in items
    ensures r.Some? ==> r.value == items - {CREATOR_ID, CREATE_TIME, ID}
  {
    if CREATOR_ID !in items || CREATE_TIME !in items || ID !in items then None
    else Some(items - {CREATOR_ID} - {CREATE_TIME} - {ID})
  }

  /**
   * The finding: once the name and id match, the stored record's id equals
   * `args['id']`, so `('id', v)` is in both item sets, is not among the
   * update items, and popping it raises KeyError. The update as written
   * therefore never reaches the database.
   */
  lemma UpdateAsWrittenAlwaysRaises(db: Db, args: map<string, Value>, now: int)
    requires LocateForUpdate(db, args).Located?
    ensures PopProtectedAsWritten(StagedItems(db.hackathons[LocateForUpdate(db, args).index], args, now)).None?
  {
    var h := db.hackathons[LocateForUpdate(db, args).index];
    assert Dic(h)[ID] == args[ID];
    assert ID !in ChangedFields(h, args);
  }

  /** A concrete store and request on which the update as written fails. */
  lemma UpdateAsWrittenCounterexample()
    ensures
      var h := Hackathon(1, map["name" := Str("hack")]);
      var db := Db([h], [], [], [], 2);
      var args := map["name" := Str("hack"), ID := Int(1), "status" := Int(1)];
      LocateForUpdate(db, args) == Located(0)
      && PopProtectedAsWritten(StagedItems(h, args, 0)).None?
  {
    var h := Hackathon(1, map["name" := Str("hack")]);
    var args := map["name" := Str("hack"), ID := Int(1), "status" := Int(1)];
    UpdateAsWrittenAlwaysRaises(Db([h], [], [], [], 2), args, 0);
  }

  /**
   * The corrected update items (`pop(key, None)`): every argument that
   * differs from the stored record, except the creator, the creation time
   * and the id, plus the new `update_time`.
   */
  function UpdateItems(h: Hackathon, args: map<string, Value>, now: int): (items: map<string, Value>)
    ensures UPDATE_TIME in items && items[UPDATE_TIME] == Time(now)
    ensures CREATOR_ID !in items && CREATE_TIME !in items && ID !in items
    ensures forall k :: k in items && k != UPDATE_TIME ==>
      k in args && items[k] == args[k] && !(k in Dic(h) && Dic(h)[k] == args[k])
    ensures forall k :: k in args && k !in {CREATOR_ID, CREATE_TIME, ID} && !(k in Dic(h) && Dic(h)[k] == args[k]) ==>
      k in items
  {
    var staged := StagedItems(h, args, now);
    staged - {CREATOR_ID, CREATE_TIME, ID}
  }

  /** The record after a corrected update. */
  function Updated(h: Hackathon, args: map<string, Value>, now: int): Hackathon {
    Hackathon(h.id, h.columns + UpdateItems(h, args, now))
  }

  /**
   * After an update the stored record agrees with the arguments on every
   * field except the three protected ones and `update_time`, which is now;
   * the id, the creator and the creation time are what they were.
   */
  lemma {:induction false} UpdateTakesEffect(h: Hackathon, args: map<string, Value>, now: int)
    requires ID !in h.columns
    ensures var h' := Updated(h, args, now);
      && h'.id == h.id && ID !in h'.columns
      && Column(h', UPDATE_TIME) == Time(now)
      && Column(h', CREATOR_ID) == Column(h, CREATOR_ID)
      && Column(h', CREATE_TIME) == Column(h, CREATE_TIME)
      && (forall k :: k in args && k !in {CREATOR_ID, CREATE_TIME, ID, UPDATE_TIME} ==> Column(h', k) == args[k])
      && (forall k :: k !in args && k != UPDATE_TIME ==> Column(h', k) == Column(h, k))
  {
    var items := UpdateItems(h, args, now);
    var h' := Updated(h, args, now);
    forall k | k in args && k !in {CREATOR_ID, CREATE_TIME, ID, UPDATE_TIME}
      ensures Column(h', k) == args[k]
    {
      if k !in items {
        assert k in Dic(h) && Dic(h)[k] == args[k];
        assert k in h.columns && h.columns[k] == args[k];
      }
    }
  }

  // ---------------------------------------------------------------------
  // Image upload checks

  /** An uploaded file: its form field name and what `imghdr.what` says it is (None: not an image). */
  datatype UploadedFile = UploadedFile(fieldName: string, imageType: Option<string>)

  const STORAGE_MISSING_MESSAGE: string := "storage accout  does not initialised"
  const TOO_LARGE_MESSAGE: string := "more than the file size limited"
  const NOT_IMAGE_MESSAGE: string := "only images can be uploaded"

  /**
   * `request.content_length > len(request.files) * size_limit` under
   * Python 2, where a missing content length (None) compares below every number.
   */
  predicate TooLarge(contentLength: Option<int>, fileCount: nat, sizeLimit: int) {
    contentLength.Some? && contentLength.value > fileCount * sizeLimit
  }

  /** The hackathon manager: the store it reads and writes (`self.db`). */
  class HackathonManager {
    var db: Db

    constructor (db0: Db)
      requires Valid(db0)
      ensures db == db0 && Valid(db)
    {
      db := db0;
    }

    /**
     * `get_hackathon_stat`: approved registrations, and how many of the
     * registered users are online; offline is the rest.
     */
    method GetHackathonStat(hackathon: Hackathon) returns (stat: Stat)
      requires Valid(db)
      ensures stat.hid == hackathon.id
      ensures stat.total == |PassedRegistrations(db.registers, hackathon.id)|
      ensures stat.online + stat.offline == stat.total
      ensures 0 <= stat.online <= stat.total
      ensures stat.total == 0 ==> stat.online == 0
      ensures stat.total > 0 ==>
        stat.online == OnlineCount(db.users, set r | r in PassedRegistrations(db.registers, hackathon.id) :: r.userId)
    {
      var regList := PassedRegistrations(db.registers, hackathon.id);
      var regCount := |regList|;
      stat := Stat(regCount, hackathon.id, 0, regCount);
      if regCount > 0 {
        var userIdList := seq(|regList|, i requires 0 <= i < |regList| => regList[i].userId);
        var ids := set x | x in userIdList;
        var userIdOnline := OnlineCount(db.users, ids);
        OnlineCountBound(db.users, ids);
        DistinctValuesBound(userIdList);
        assert ids == set r | r in regList :: r.userId by {
          forall r | r in regList ensures r.userId in ids {
            var k :| 0 <= k < |regList| && regList[k] == r;
            assert userIdList[k] == r.userId;
          }
        }
        stat := stat.(online := userIdOnline);
        stat := stat.(offline := regCount - userIdOnline);
      }
    }

    /**
     * `create_new_hackathon`: refuses a request without a name, does
     * nothing (and returns None) for a name already taken, otherwise
     * inserts the hackathon and the relation making the current user its
     * admin, and returns the new id.
     */
    method CreateNewHackathon(args: map<string, Value>, currentUserId: int, now: int) returns (r: CreateResult)
      requires Valid(db)
      modifies this
      ensures Valid(db)
      ensures "name" !in args ==> r == Rejected(BadRequest(NAME_MISSING_MESSAGE)) && db == old(db)
      ensures "name" in args && GetHackathonByName(old(db), args["name"]).Some? ==> r == NoValue && db == old(db)
      ensures "name" in args && GetHackathonByName(old(db), args["name"]).None? ==>
        && r == NewId(old(db).nextId)
        && db == old(db).(hackathons := old(db).hackathons + [Hackathon(r.id, CreatedColumns(args, currentUserId, now))],
                          adminRels := old(db).adminRels + [CreatorRel(currentUserId, r.id, now)],
                          nextId := old(db).nextId + 1)
      ensures r.NewId? ==> ValidateAdminPrivilege(db, currentUserId, r.id)
      ensures r.NewId? ==> GetHackathonById(db, Int(r.id)).Some?
    {
      if "name" !in args {
        return Rejected(BadRequest(NAME_MISSING_MESSAGE));
      }
      var hackathon := GetHackathonByName(db, args["name"]);
      if hackathon.None? {
        var fields := args;
        fields := fields[UPDATE_TIME := Time(now)];
        fields := fields[CREATE_TIME := Time(now)];
        fields := fields[CREATOR_ID := Int(currentUserId)];
        var newHack := Hackathon(db.nextId, fields - {ID});
        assert newHack.columns == CreatedColumns(args, currentUserId, now);
        assert Column(newHack, "name") == args["name"];
        var ahl := CreatorRel(currentUserId, newHack.id, now);
        AppendKeepsValid(db, newHack, ahl);
        db := db.(hackathons := db.hackathons + [newHack], nextId := db.nextId + 1);
        CreatorHasPrivilege(db, currentUserId, newHack.id, now);
        db := db.(adminRels := db.adminRels + [ahl]);
        assert Column(newHack, ID) == Int(newHack.id);
        assert newHack in db.hackathons;
        return NewId(newHack.id);
      }
      r := NoValue;
    }

    /**
     * `update_hackathon` as written: after the checks, popping the
     * protected keys without a default raises KeyError, which the except
     * turns into an internal error; the store is never written.
     */
    method UpdateHackathonAsWritten(args: map<string, Value>, now: int) returns (r: Outcome<Response>)
      requires Valid(db)
      ensures LocateForUpdate(db, args).Early? ==> r == LocateForUpdate(db, args).outcome
      ensures LocateForUpdate(db, args).Located? ==> r == Returned(InternalServerError(UPDATE_FAILED_MESSAGE))
    {
      var target := LocateForUpdate(db, args);
      if target.Early? {
        return target.outcome;
      }
      var hackathon := db.hackathons[target.index];
      var updateItems := StagedItems(hackathon, args, now);
      var popped := PopProtectedAsWritten(updateItems);
      if popped.None? {
        return Returned(InternalServerError(UPDATE_FAILED_MESSAGE));
      }
      UpdateAsWrittenAlwaysRaises(db, args, now);
      assert false;
    }

    /**
     * `update_hackathon` with the protected keys popped with a default:
     * writes exactly the differing fields and `update_time` to the record
     * named by the request, and nothing else.
     */
    method UpdateHackathon(args: map<string, Value>, now: int) returns (r: Outcome<Response>)
      requires Valid(db)
      modifies this
      ensures Valid(db)
      ensures LocateForUpdate(old(db), args).Early? ==>
        r == LocateForUpdate(old(db), args).outcome && db == old(db)
      ensures LocateForUpdate(old(db), args).Located? ==>
        var k := LocateForUpdate(old(db), args).index;
        && r == Returned(Ok(UPDATE_OK_MESSAGE))
        && db == old(db).(hackathons := old(db).hackathons[k := Updated(old(db).hackathons[k], args, now)])
    {
      var target := LocateForUpdate(db, args);
      if target.Early? {
        return target.outcome;
      }
      var hackathon := db.hackathons[target.index];
      var updateItems := ChangedFields(hackathon, args);
      updateItems := updateItems[UPDATE_TIME := Time(now)];
      updateItems := updateItems - {CREATOR_ID};
      updateItems := updateItems - {CREATE_TIME};
      updateItems := updateItems - {ID};
      assert updateItems == UpdateItems(hackathon, args, now);
      var written := Hackathon(hackathon.id, hackathon.columns + updateItems);
      UpdateKeepsValid(db, target.index, args, now);
      db := db.(hackathons := db.hackathons[target.index := written]);
      r := Returned(Ok(UPDATE_OK_MESSAGE));
    }

    /**
     * `upload_images_validate`: None when the upload may go ahead, else the
     * first failing check's response (storage not configured, content too
     * large, a file that is not an image).
     */
    method UploadImagesValidate(accountName: Option<string>, accountKey: Option<string>,
                                contentLength: Option<int>, sizeLimit: int,
                                files: seq<UploadedFile>) returns (r: Option<Response>)
      ensures (accountName.None? || accountKey.None?) <==> r == Some(InternalServerError(STORAGE_MISSING_MESSAGE))
      ensures accountName.Some? && accountKey.Some? && TooLarge(contentLength, |files|, sizeLimit) ==>
        r == Some(BadRequest(TOO_LARGE_MESSAGE))
      ensures accountName.Some? && accountKey.Some? && !TooLarge(contentLength, |files|, sizeLimit) ==>
        && (r.None? <==> forall f :: f in files ==> f.imageType.Some?)
        && (r.Some? ==> r == Some(BadRequest(NOT_IMAGE_MESSAGE)))
    {
      if accountName.None? || accountKey.None? {
        return Some(InternalServerError(STORAGE_MISSING_MESSAGE));
      }
      if TooLarge(contentLength, |files|, sizeLimit) {
        return Some(BadRequest(TOO_LARGE_MESSAGE));
      }
      var i := 0;
      while i < |files|
        invariant 0 <= i <= |files|
        invariant forall j :: 0 <= j < i ==> files[j].imageType.Some?
      {
        if files[i].imageType.None? {
          return Some(BadRequest(NOT_IMAGE_MESSAGE));
        }
        i := i + 1;
      }
      r := None;
    }
  }

  /** A corrected update keeps the store's keys and names unique. */
  lemma UpdateKeepsValid(db: Db, k: nat, args: map<string, Value>, now: int)
    requires Valid(db)
    requires LocateForUpdate(db, args) == Located(k)
    ensures Valid(db.(hackathons := db.hackathons[k := Updated(db.hackathons[k], args, now)]))
  {
    var h := db.hackathons[k];
    UpdateTakesEffect(h, args, now);
    assert Column(Updated(h, args, now), "name") == args["name"];
    ReplaceKeepsValid(db, k, Updated(h, args, now));
  }

  /** Replacing a record by one with the same id and name and no stored "id" column keeps the store valid. */
  lemma ReplaceKeepsValid(db: Db, k: nat, h: Hackathon)
    requires Valid(db) && k < |db.hackathons|
    requires h.id == db.hackathons[k].id && ID !in h.columns
    requires Column(h, "name") == Column(db.hackathons[k], "name")
    ensures Valid(db.(hackathons := db.hackathons[k := h]))
  {
    var hs := db.hackathons[k := h];
    forall g | g in hs ensures 0 < g.id < db.nextId && ID !in g.columns {
      var i :| 0 <= i < |hs| && hs[i] == g;
      assert i != k ==> db.hackathons[i] in db.hackathons;
      assert db.hackathons[k] in db.hackathons;
    }
    forall i | 0 <= i < |hs| ensures hs[i].id == db.hackathons[i].id && Column(hs[i], "name") == Column(db.hackathons[i], "name") {
    }
  }

}
