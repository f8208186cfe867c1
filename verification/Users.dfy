/**
 The user database (kernel/src/auth/users.rs): creation, deletion, rollback, and the byte
 format it is stored in. Salts, hashes and clock readings are arguments.
 */
module Users {
  import opened Bytes
  import opened Errors

  const MAX_USERS := 32

  /** Rust strings are UTF-8. */
  type Text = s: str | ValidUtf8(s) witness []
  type Hash = s: seq<byte> | |s| == 32 witness Zeros(32)
  type Salt = s: seq<byte> | |s| == 16 witness Zeros(16)

  datatype Role = Admin | User | Guest

  datatype Account = Account(
    uid: u16, username: Text, passwordHash: Hash, salt: Salt, role: Role,
    homeDir: Text, active: bool, createdAt: u64, lastLogin: u64)

  type Accounts = seq<Account>

  datatype Db = Db(users: Accounts, nextUid: u16)

  datatype AuthError =
    | InvalidUsername | InvalidPassword | UserExists | UserNotFound
    | TooManyUsers | CannotDeleteRoot | SerializationError

  type Outcome = Result<u16, AuthError>

  // ---------- accounts in order of uid ----------

  predicate Sorted(users: Accounts) {
    forall i | 0 <= i < |users| - 1 :: users[i].uid < users[i + 1].uid
  }

  predicate HasUid(users: Accounts, uid: u16) {
    exists i | 0 <= i < |users| :: users[i].uid == uid
  }

  predicate HasName(users: Accounts, username: str) {
    exists i | 0 <= i < |users| :: users[i].username == username
  }

  /** Stable insertion: after every account with the same uid. */
  function Insert(sorted: Accounts, u: Account): (s: Accounts)
    ensures |s| == |sorted| + 1
    ensures s[0] == u || (sorted != [] && s[0] == sorted[0])
    ensures forall x :: x in s <==> x in sorted || x == u
  {
    if sorted == [] then [u]
    else if u.uid < sorted[0].uid then [u] + sorted
    else
      assert sorted == [sorted[0]] + sorted[1..];
      [sorted[0]] + Insert(sorted[1..], u)
  }

  /** `sort_by` on uids. */
  function SortByUid(users: Accounts): Accounts {
    if users == [] then [] else Insert(SortByUid(users[..|users| - 1]), users[|users| - 1])
  }

  lemma {:induction false} UidOrder(users: Accounts, i: nat, j: nat)
    requires Sorted(users) && i < j < |users|
    ensures users[i].uid < users[j].uid
  {
    if i + 1 < j {
      UidOrder(users, i, j - 1);
    }
  }

  lemma {:induction false} InsertSorted(sorted: Accounts, u: Account)
    requires Sorted(sorted) && !HasUid(sorted, u.uid)
    ensures Sorted(Insert(sorted, u))
  {
    if sorted != [] && u.uid >= sorted[0].uid {
      assert sorted[0].uid != u.uid;
      assert forall i | 0 <= i < |sorted[1..]| :: sorted[1..][i] == sorted[i + 1];
      InsertSorted(sorted[1..], u);
    }
  }

  lemma {:induction false} InsertTwice(sorted: Accounts, u: Account)
    requires Sorted(sorted) && HasUid(sorted, u.uid)
    ensures !Sorted(Insert(sorted, u))
  {
    var s := Insert(sorted, u);
    if u.uid >= sorted[0].uid {
      if sorted[0].uid == u.uid {
        AfterEqual(sorted, u);
      } else {
        var i :| 0 <= i < |sorted| && sorted[i].uid == u.uid;
        assert sorted[1..][i - 1].uid == u.uid;
        InsertTwice(sorted[1..], u);
        assert s[1..] == Insert(sorted[1..], u);
        TailSorted(s);
      }
    } else {
      var i :| 0 <= i < |sorted| && sorted[i].uid == u.uid;
      if i > 0 {
        UidOrder(sorted, 0, i);
      }
    }
  }

  lemma TailSorted(users: Accounts)
    requires users != []
    ensures Sorted(users) ==> Sorted(users[1..])
  {
  }

  lemma AfterEqual(sorted: Accounts, u: Account)
    requires Sorted(sorted) && sorted != [] && sorted[0].uid == u.uid
    ensures !Sorted(Insert(sorted, u))
  {
    var s, rest := Insert(sorted, u), Insert(sorted[1..], u);
    assert |sorted| > 1 ==> sorted[0].uid < sorted[1].uid == sorted[1..][0].uid;
    assert rest[0] == u;
    assert s == [sorted[0]] + rest;
    assert s[0].uid == s[1].uid;
  }

  /** In order of uid, with no uid twice but the highest one there is. */
  predicate Ascending(users: Accounts) {
    forall i | 0 <= i < |users| - 1 ::
      users[i].uid < users[i + 1].uid || users[i].uid == users[i + 1].uid == U16_MAX
  }

  lemma {:induction false} AscendingOrder(users: Accounts, i: nat, j: nat)
    requires Ascending(users) && i < j < |users|
    ensures users[i].uid < users[j].uid || users[i].uid == users[j].uid == U16_MAX
  {
    if i + 1 < j {
      AscendingOrder(users, i, j - 1);
    }
  }

  /** The order is strict exactly when no two accounts have the highest uid. */
  lemma SortedExactly(users: Accounts)
    requires Ascending(users)
    ensures Sorted(users) <==> |users| < 2 || users[|users| - 2].uid != U16_MAX
  {
    if Sorted(users) {
      assert |users| >= 2 ==> users[|users| - 2].uid < users[|users| - 2 + 1].uid;
    } else {
      var i :| 0 <= i < |users| - 1 && users[i].uid >= users[i + 1].uid;
      if i < |users| - 2 {
        AscendingOrder(users, i, |users| - 2);
      }
    }
  }

  lemma {:induction false} InsertAscending(users: Accounts, u: Account)
    requires Ascending(users) && (u.uid == U16_MAX || !HasUid(users, u.uid))
    ensures Ascending(Insert(users, u))
  {
    if users != [] && u.uid >= users[0].uid {
      var rest := users[1..];
      assert users[0].uid == u.uid ==> u.uid == U16_MAX;
      assert forall i | 0 <= i < |rest| :: rest[i] == users[i + 1];
      InsertAscending(rest, u);
      AscendingCons(users[0], Insert(rest, u));
    } else if users != [] {
      AscendingCons(u, users);
    }
  }

  lemma AscendingCons(u: Account, users: Accounts)
    requires Ascending(users)
    requires users == [] || u.uid < users[0].uid || u.uid == users[0].uid == U16_MAX
    ensures Ascending([u] + users)
  {
  }

  lemma {:induction false} SortOfAscending(users: Accounts)
    requires Ascending(users)
    ensures SortByUid(users) == users
  {
    hide Insert;
    if users != [] {
      var front, last := users[..|users| - 1], users[|users| - 1];
      SortOfAscending(front);
      forall i | 0 <= i < |front|
        ensures front[i].uid <= last.uid
      {
        AscendingOrder(users, i, |front|);
      }
      InsertLast(front, last);
      assert users == front + [last];
    }
  }

  lemma {:induction false} InsertLast(users: Accounts, u: Account)
    requires forall i | 0 <= i < |users| :: users[i].uid <= u.uid
    ensures Insert(users, u) == users + [u]
  {
    if users != [] {
      InsertLast(users[1..], u);
      assert users == [users[0]] + users[1..];
    }
  }

  /** Sorting moves accounts about and does nothing else to them. */
  lemma {:induction false} SortPermutes(users: Accounts)
    ensures multiset(SortByUid(users)) == multiset(users)
  {
    if users != [] {
      var front, last := users[..|users| - 1], users[|users| - 1];
      SortPermutes(front);
      InsertCounts(SortByUid(front), last);
      assert users == front + [last];
    }
  }

  lemma {:induction false} InsertCounts(users: Accounts, u: Account)
    ensures multiset(Insert(users, u)) == multiset(users) + multiset{u}
  {
    if users != [] && u.uid >= users[0].uid {
      InsertCounts(users[1..], u);
      assert users == [users[0]] + users[1..];
    }
  }

  function Pushed(users: Accounts, u: Account): Accounts { SortByUid(users + [u]) }

  lemma PushedIsInsert(users: Accounts, u: Account)
    requires Ascending(users)
    ensures Pushed(users, u) == Insert(users, u)
  {
    assert (users + [u])[..|users|] == users;
    SortOfAscending(users);
  }

  lemma PushedCounts(users: Accounts, u: Account)
    ensures multiset(Pushed(users, u)) == multiset(users) + multiset{u}
    ensures forall x :: x in Pushed(users, u) <==> x in users || x == u
  {
    SortPermutes(users + [u]);
    assert forall x :: x in Pushed(users, u) <==> x in multiset(Pushed(users, u));
  }

  // ---------- operations ----------

  datatype Op =
    | Create(username: Text, passwordLen: nat, role: Role, salt: Salt, passwordHash: Hash, now: u64)
    | Delete(uid: u16)
    | Restore(user: Account)

  predicate NameByte(b: byte) { 48 <= b <= 57 || 65 <= b <= 90 || 97 <= b <= 122 || b == 95 }

  predicate ValidUsername(s: str) {
    s != [] && |s| <= 32 && forall i | 0 <= i < |s| :: NameByte(s[i])
  }

  function HomeDir(uid: u16, username: Text): Text {
    if uid == 0 then AsciiIsUtf8(Ascii("/root")); Ascii("/root")
    else if ValidUsername(username) then
      AsciiIsUtf8(Ascii("/home/") + username);
      Ascii("/home/") + username
    else []
  }

  function NewAccount(db: Db, op: Op): Account
    requires op.Create?
  {
    Account(db.nextUid, op.username, op.passwordHash, op.salt, op.role,
            HomeDir(db.nextUid, op.username), true, op.now, 0)
  }

  function CreateStep(db: Db, op: Op): (Db, Outcome)
    requires op.Create?
  {
    if !ValidUsername(op.username) then (db, Err(InvalidUsername))
    else if op.passwordLen < 4 then (db, Err(InvalidPassword))
    else if HasName(db.users, op.username) then (db, Err(UserExists))
    else if |db.users| >= MAX_USERS then (db, Err(TooManyUsers))
    else (Db(Pushed(db.users, NewAccount(db, op)), SaturatingAdd16(db.nextUid, 1)), Ok(db.nextUid))
  }

  function Position(users: Accounts, uid: u16): (i: nat)
    ensures i <= |users|
    ensures i < |users| ==> users[i].uid == uid
    ensures i == |users| ==> !HasUid(users, uid)
  {
    if users == [] || users[0].uid == uid then 0
    else
      var i := Position(users[1..], uid);
      assert forall k | 1 <= k < |users| :: users[k] == users[1..][k - 1];
      1 + i
  }

  function DeleteStep(db: Db, uid: u16): (Db, Outcome) {
    if uid == 0 then (db, Err(CannotDeleteRoot))
    else
      var i := Position(db.users, uid);
      if i == |db.users| then (db, Err(UserNotFound))
      else (db.(users := db.users[..i] + db.users[i + 1..]), Ok(uid))
  }

  function RestoreStep(db: Db, user: Account): (Db, Outcome) {
    if HasUid(db.users, user.uid) then (db, Ok(user.uid))
    else (Db(Pushed(db.users, user), Max(db.nextUid, SaturatingAdd16(user.uid, 1))), Ok(user.uid))
  }

  function Step(db: Db, op: Op): (Db, Outcome) {
    match op
    case Create(_, _, _, _, _, _) => CreateStep(db, op)
    case Delete(uid) => DeleteStep(db, uid)
    case Restore(user) => RestoreStep(db, user)
  }

  function Run(db: Db, ops: seq<Op>): Db
    decreases |ops|
  {
    if ops == [] then db else Run(Step(db, ops[0]).0, ops[1..])
  }

  // ---------- invariant ----------

  /** Accounts strictly in order of uid, all below the next uid, root first. */
  predicate Good(db: Db) {
    && Sorted(db.users)
    && db.users != [] && db.users[0].uid == 0
    && forall i | 0 <= i < |db.users| :: db.users[i].uid < db.nextUid
  }

  /** Root first, in order but for the highest uid, and no uid that is still to be handed out. */
  predicate Rooted(db: Db) {
    && Ascending(db.users)
    && db.users != [] && db.users[0].uid == 0
    && forall i | 0 <= i < |db.users| :: db.users[i].uid < db.nextUid || db.nextUid == U16_MAX
  }

  lemma RootedGood(db: Db)
    requires Rooted(db) && db.nextUid < U16_MAX
    ensures Good(db)
  {
  }

  lemma SortedAscending(users: Accounts)
    requires Sorted(users)
    ensures Ascending(users)
  {
  }

  lemma InsertKeeps(db: Db, u: Account, next: u16)
    requires Rooted(db) && u.uid != 0 && (u.uid == U16_MAX || !HasUid(db.users, u.uid))
    requires db.nextUid <= next && (u.uid < next || next == U16_MAX)
    ensures Rooted(Db(Pushed(db.users, u), next))
  {
    hide Ascending, Pushed, HasUid;
    PushedIsInsert(db.users, u);
    InsertAscending(db.users, u);
    var users := Insert(db.users, u);
    assert users[0] == db.users[0];
    forall i | 0 <= i < |users|
      ensures next == U16_MAX || users[i].uid < next
    {
      assert users[i] in users;
    }
  }

  lemma RemoveKeeps(db: Db, i: nat)
    requires Rooted(db) && 0 < i < |db.users|
    ensures Rooted(db.(users := db.users[..i] + db.users[i + 1..]))
  {
    var s := db.users[..i] + db.users[i + 1..];
    forall k | 0 <= k < |s| - 1
      ensures s[k].uid < s[k + 1].uid || s[k].uid == s[k + 1].uid == U16_MAX
    {
      AscendingOrder(db.users, if k < i then k else k + 1, if k + 1 < i then k + 1 else k + 2);
    }
  }

  lemma UidBelow(db: Db)
    requires Rooted(db) && db.nextUid < U16_MAX
    ensures !HasUid(db.users, db.nextUid)
  {
  }

  /** Every operation keeps root, order and the bound on uids, and never takes a uid back. */
  lemma StepKeeps(db: Db, op: Op)
    requires Rooted(db)
    ensures Rooted(Step(db, op).0) && Step(db, op).0.nextUid >= db.nextUid
  {
    hide Ascending, Pushed;
    match op
    case Create(_, _, _, _, _, _) =>
      if CreateStep(db, op).1.Ok? {
        if db.nextUid < U16_MAX {
          UidBelow(db);
        }
        RootBelow(db);
        InsertKeeps(db, NewAccount(db, op), SaturatingAdd16(db.nextUid, 1));
      }
    case Delete(uid) =>
      if DeleteStep(db, uid).1.Ok? {
        RemoveKeeps(db, Position(db.users, uid));
      }
    case Restore(user) =>
      if !HasUid(db.users, user.uid) {
        RootThere(db);
        InsertKeeps(db, user, Max(db.nextUid, SaturatingAdd16(user.uid, 1)));
      }
  }

  lemma RootBelow(db: Db)
    requires Rooted(db)
    ensures db.nextUid > 0
  {
  }

  lemma RootThere(db: Db)
    requires Rooted(db)
    ensures HasUid(db.users, 0)
  {
  }

  /** An account with uid 0 is never removed. */
  lemma RootStays(db: Db, op: Op, x: Account)
    requires x in db.users && x.uid == 0
    ensures x in Step(db, op).0.users
  {
    match op
    case Create(_, _, _, _, _, _) =>
      PushedCounts(db.users, NewAccount(db, op));
    case Delete(uid) =>
      if DeleteStep(db, uid).1.Ok? {
        OthersRemain(db.users, Position(db.users, uid), x);
      }
    case Restore(user) =>
      PushedCounts(db.users, user);
  }

  lemma {:induction false} RunKeeps(db: Db, ops: seq<Op>, x: Account)
    requires Rooted(db) && x in db.users && x.uid == 0
    ensures Rooted(Run(db, ops)) && x in Run(db, ops).users && Run(db, ops).nextUid >= db.nextUid
    decreases |ops|
  {
    hide Rooted, Step;
    if ops != [] {
      StepKeeps(db, ops[0]);
      RootStays(db, ops[0], x);
      RunKeeps(Step(db, ops[0]).0, ops[1..], x);
    }
  }

  /**
   Creation keeps the order strict exactly when no account has the uid it hands out. That
   can only fail once the next uid has stopped at 65535.
   */
  lemma CreateKeepsExactly(db: Db, op: Op)
    requires Rooted(db) && Sorted(db.users) && op.Create? && CreateStep(db, op).1.Ok?
    ensures Sorted(CreateStep(db, op).0.users) <==> !HasUid(db.users, db.nextUid)
    ensures db.nextUid < U16_MAX ==> !HasUid(db.users, db.nextUid)
  {
    hide Ascending, HasUid;
    if db.nextUid < U16_MAX {
      UidBelow(db);
    }
    PushedIsInsert(db.users, NewAccount(db, op));
    if HasUid(db.users, db.nextUid) {
      InsertTwice(db.users, NewAccount(db, op));
    } else {
      InsertSorted(db.users, NewAccount(db, op));
    }
  }

  /** The account a successful creation adds. */
  predicate IsNew(x: Account, db: Db, op: Op)
    requires op.Create?
  {
    && x.uid == db.nextUid && x.username == op.username && x.passwordHash == op.passwordHash && x.salt == op.salt
    && x.role == op.role && x.active && x.createdAt == op.now && x.lastLogin == 0
    && x.homeDir == if x.uid == 0 then Ascii("/root") else Ascii("/home/") + op.username
  }

  /** One to 32 letters, digits and underscores. */
  predicate LegalName(s: str) {
    1 <= |s| <= 32
    && forall i | 0 <= i < |s| ::
         || 'a' as int <= s[i] <= 'z' as int || 'A' as int <= s[i] <= 'Z' as int
         || '0' as int <= s[i] <= '9' as int || s[i] == '_' as int
  }

  lemma ValidIsLegal(s: str)
    ensures ValidUsername(s) <==> LegalName(s)
  {
    if LegalName(s) {
      assert forall i | 0 <= i < |s| :: NameByte(s[i]);
    }
  }

  /** What a creation is refused for, in the order it looks. */
  function Refusal(db: Db, op: Op): Option<AuthError>
    requires op.Create?
  {
    if !LegalName(op.username) then Some(InvalidUsername)
    else if op.passwordLen < 4 then Some(InvalidPassword)
    else if HasName(db.users, op.username) then Some(UserExists)
    else if |db.users| >= 32 then Some(TooManyUsers)
    else None
  }

  /**
   What an operation does to any database: a creation adds one active account under the next
   uid, a deletion takes away one account with that uid, a rollback adds the account unless
   its uid is taken; nothing else changes, and on an error nothing at all.
   */
  ghost predicate Effect(db: Db, op: Op, db': Db, r: Outcome) {
    match op
    case Create(username, passwordLen, _, _, _, _) =>
      && (r.Ok? <==> LegalName(username) && passwordLen >= 4
                     && !HasName(db.users, username) && |db.users| < 32)
      && (if r.Err? then db' == db
          else
            && r.value == db.nextUid && db'.nextUid == (if db.nextUid == 65535 then 65535 else db.nextUid + 1)
            && exists x :: IsNew(x, db, op) && multiset(db'.users) == multiset(db.users) + multiset{x})
    case Delete(uid) =>
      && (r.Ok? <==> uid != 0 && HasUid(db.users, uid))
      && (if r.Err? then db' == db
          else
            && db'.nextUid == db.nextUid
            && exists x | x in db.users :: x.uid == uid && multiset(db'.users) == multiset(db.users) - multiset{x})
    case Restore(user) =>
      if HasUid(db.users, user.uid) then db' == db
      else
        && db'.nextUid == (if user.uid < db.nextUid then db.nextUid else if user.uid == 65535 then 65535 else user.uid + 1)
        && multiset(db'.users) == multiset(db.users) + multiset{user}
  }

  lemma StepEffect(db: Db, op: Op)
    ensures Effect(db, op, Step(db, op).0, Step(db, op).1)
  {
    match op
    case Create(_, _, _, _, _, _) => CreateEffect(db, op);
    case Delete(uid) => DeleteEffect(db, uid);
    case Restore(user) =>
      hide Pushed;
      PushedCounts(db.users, user);
  }

  lemma CreateEffect(db: Db, op: Op)
    requires op.Create?
    ensures Effect(db, op, CreateStep(db, op).0, CreateStep(db, op).1)
  {
    hide Pushed, NewAccount, ValidUsername, LegalName, HasName, IsNew;
    ValidIsLegal(op.username);
    if CreateStep(db, op).1.Ok? {
      var x := NewAccount(db, op);
      NewIsNew(db, op);
      PushedCounts(db.users, x);
    }
  }

  lemma NewIsNew(db: Db, op: Op)
    requires op.Create? && ValidUsername(op.username)
    ensures IsNew(NewAccount(db, op), db, op)
  {
  }

  lemma DeleteEffect(db: Db, uid: u16)
    ensures Effect(db, Delete(uid), DeleteStep(db, uid).0, DeleteStep(db, uid).1)
  {
    var i := Position(db.users, uid);
    if DeleteStep(db, uid).1.Ok? {
      RemovedCounts(db.users, i);
      assert db.users[i] in db.users;
    }
  }

  lemma RemovedCounts(users: Accounts, i: nat)
    requires i < |users|
    ensures multiset(users[..i] + users[i + 1..]) == multiset(users) - multiset{users[i]}
  {
    assert users == users[..i] + [users[i]] + users[i + 1..];
  }

  lemma OthersRemain(users: Accounts, i: nat, x: Account)
    requires i < |users| && x in users && x.uid != users[i].uid
    ensures x in users[..i] + users[i + 1..]
  {
    var m :| 0 <= m < |users| && users[m] == x;
    assert m < i ==> users[..i][m] == x;
    assert m > i ==> users[i + 1..][m - i - 1] == x;
  }

  function EmptyDb(): Db { Db([], 0) }

  /** `with_default_root`. */
  function DefaultDb(salt: Salt, passwordHash: Hash, now: u64): Db {
    AsciiIsUtf8(Ascii("root"));
    CreateStep(EmptyDb(), Create(Ascii("root"), 5, Admin, salt, passwordHash, now)).0
  }

  lemma DefaultGood(salt: Salt, passwordHash: Hash, now: u64)
    ensures Good(DefaultDb(salt, passwordHash, now)) && DefaultDb(salt, passwordHash, now).nextUid == 1
  {
    hide Sorted, Pushed, NewAccount;
    RootAccepted();
    AsciiIsUtf8(Ascii("root"));
    var op := Create(Ascii("root"), 5, Admin, salt, passwordHash, now);
    PushedAlone(NewAccount(EmptyDb(), op));
    assert NewAccount(EmptyDb(), op).uid == 0 by {
      NewUid(EmptyDb(), op);
    }
  }

  /** The default database is the root account and nothing else. */
  lemma DefaultIsRoot(salt: Salt, passwordHash: Hash, now: u64)
    ensures ValidUtf8(Ascii("root")) && ValidUtf8(Ascii("/root"))
    ensures DefaultDb(salt, passwordHash, now) ==
            Db([Account(0, Ascii("root"), passwordHash, salt, Admin, Ascii("/root"), true, now, 0)], 1)
  {
    hide Sorted, Pushed, ValidUtf8;
    RootAccepted();
    AsciiIsUtf8(Ascii("root"));
    AsciiIsUtf8(Ascii("/root"));
    var op := Create(Ascii("root"), 5, Admin, salt, passwordHash, now);
    PushedAlone(NewAccount(EmptyDb(), op));
  }

  lemma RootAccepted()
    ensures ValidUsername(Ascii("root"))
  {
    assert Ascii("root") == [114, 111, 111, 116];
  }

  lemma NewUid(db: Db, op: Op)
    requires op.Create?
    ensures NewAccount(db, op).uid == db.nextUid
  {
  }

  lemma PushedAlone(u: Account)
    ensures Pushed([], u) == [u] && Sorted([u])
  {
    PushedIsInsert([], u);
  }

  /**
   Every database reached from the default one, whatever was done to it, still has the
   account it began with, as the first one; accounts are in order, and no uid is held twice
   but 65535. While uids are left to hand out the order is strict and all uids lie below them.
   */
  lemma ReachableGood(salt: Salt, passwordHash: Hash, now: u64, ops: seq<Op>)
    ensures var start := DefaultDb(salt, passwordHash, now);
            var db := Run(start, ops);
            && Rooted(db) && start.users != [] && start.users[0] in db.users
            && (db.nextUid < U16_MAX ==> Good(db))
            && (Sorted(db.users) <==> |db.users| < 2 || db.users[|db.users| - 2].uid != U16_MAX)
  {
    hide Ascending, Sorted, DefaultDb, Run;
    var start := DefaultDb(salt, passwordHash, now);
    DefaultGood(salt, passwordHash, now);
    SortedAscending(start.users);
    RunKeeps(start, ops, start.users[0]);
    var db := Run(start, ops);
    SortedExactly(db.users);
    if db.nextUid < U16_MAX {
      RootedGood(db);
    }
  }

  /** A uid that is taken and handed out again breaks the order. */
  lemma HandedOutAgain(db: Db, op: Op)
    requires Sorted(db.users) && op.Create? && CreateStep(db, op).1.Ok? && HasUid(db.users, db.nextUid)
    ensures !Sorted(Run(db, [op]).users)
  {
    SortedAscending(db.users);
    PushedIsInsert(db.users, NewAccount(db, op));
    InsertTwice(db.users, NewAccount(db, op));
    assert [op][1..] == [];
    assert Run(db, [op]) == Step(db, op).0;
  }

  /** Restoring an account with uid 65535 brings the next uid to its ceiling. */
  lemma RestoreToCeiling(db: Db, user: Account)
    requires Good(db) && !HasUid(db.users, user.uid) && user.uid == U16_MAX
    ensures var db' := Step(db, Restore(user)).0;
            && Sorted(db'.users) && db'.nextUid == U16_MAX && HasUid(db'.users, U16_MAX)
            && |db'.users| == |db.users| + 1 && forall x :: x in db'.users <==> x in db.users || x == user
  {
    var db' := Step(db, Restore(user)).0;
    SortedAscending(db.users);
    PushedIsInsert(db.users, user);
    InsertSorted(db.users, user);
    assert user in db'.users;
  }

  /**
   Past the ceiling the order does break, from every good database with room for two more
   accounts: restore uid 65535, then create a user.
   */
  lemma CeilingBreaks(db: Db, user: Account, op: Op)
    requires Good(db) && |db.users| <= MAX_USERS - 2 && user.uid == U16_MAX
    requires op.Create? && ValidUsername(op.username) && op.passwordLen >= 4
    requires !HasName(db.users, op.username) && user.username != op.username
    ensures !Sorted(Run(db, [Restore(user), op]).users)
  {
    RestoreToCeiling(db, user);
    var db' := Step(db, Restore(user)).0;
    forall i | 0 <= i < |db'.users|
      ensures db'.users[i].username != op.username
    {
      assert db'.users[i] in db'.users;
      if db'.users[i] in db.users {
        var k :| 0 <= k < |db.users| && db.users[k] == db'.users[i];
      }
    }
    HandedOutAgain(db', op);
    var ops := [Restore(user), op];
    assert ops[1..] == [op];
    assert Run(db, ops) == Run(db', [op]);
  }

  // ---------- running out of uids ----------

  /** The account can be created here, and under this name. */
  predicate Creatable(db: Db, op: Op) {
    && op.Create? && ValidUsername(op.username) && op.passwordLen >= 4
    && !HasName(db.users, op.username) && |db.users| < MAX_USERS
  }

  /** Create one user and delete it again, `n` times, from uid `first` on. */
  function Churn(op: Op, first: u16, n: nat): seq<Op>
    requires first + n <= U16_MAX
    decreases n
  {
    if n == 0 then [] else [op, Delete(first)] + Churn(op, first + 1, n - 1)
  }

  lemma PositionLast(users: Accounts, u: Account)
    requires !HasUid(users, u.uid)
    ensures Position(users + [u], u.uid) == |users|
  {
    var all := users + [u];
    assert all[|users|].uid == u.uid;
    assert forall k | 0 <= k < |users| :: all[k] == users[k];
  }

  /** One round hands out one uid, and that is all it does. */
  lemma ChurnOnce(db: Db, op: Op)
    requires Good(db) && Creatable(db, op) && db.nextUid < U16_MAX
    ensures Step(Step(db, op).0, Delete(db.nextUid)).0 == db.(nextUid := db.nextUid + 1)
  {
    hide Sorted, Ascending, ValidUsername, Insert, Pushed, Position;
    var u := NewAccount(db, op);
    SortedAscending(db.users);
    PushedIsInsert(db.users, u);
    InsertLast(db.users, u);
    PositionLast(db.users, u);
    assert (db.users + [u])[..|db.users|] == db.users;
    assert (db.users + [u])[|db.users| + 1..] == [];
  }

  lemma {:induction false} ChurnRun(db: Db, op: Op, n: nat)
    requires Good(db) && Creatable(db, op) && db.nextUid + n <= U16_MAX
    ensures Run(db, Churn(op, db.nextUid, n)) == db.(nextUid := db.nextUid + n)
    decreases n
  {
    hide Sorted, ValidUsername, Step;
    if n > 0 {
      var ops, rest := Churn(op, db.nextUid, n), Churn(op, db.nextUid + 1, n - 1);
      var d1 := Step(db, op).0;
      assert ops[1..] == [Delete(db.nextUid)] + rest && ops[1..][1..] == rest;
      assert Run(db, ops) == Run(d1, ops[1..]) == Run(Step(d1, Delete(db.nextUid)).0, rest);
      ChurnOnce(db, op);
      ChurnRun(db.(nextUid := db.nextUid + 1), op, n - 1);
    }
  }

  lemma {:induction false} RunSplit(db: Db, a: seq<Op>, b: seq<Op>)
    ensures Run(db, a + b) == Run(Run(db, a), b)
    decreases |a|
  {
    hide Step;
    if a == [] {
      assert a + b == b;
    } else {
      assert (a + b)[1..] == a[1..] + b;
      RunSplit(Step(db, a[0]).0, a[1..], b);
    }
  }

  /**
   Creations and deletions alone break the order, from every good database with room for
   two more accounts: one user created and deleted until the uids run out, then created
   once more, and another after it.
   */
  lemma CreationsBreak(db: Db, op: Op, other: Op)
    requires Good(db) && |db.users| <= MAX_USERS - 2 && Creatable(db, op) && Creatable(db, other)
    requires op.username != other.username
    ensures !Sorted(Run(db, Churn(op, db.nextUid, U16_MAX - db.nextUid) + [op, other]).users)
  {
    hide Sorted, ValidUsername, Insert, Pushed, NewAccount;
    var n := U16_MAX - db.nextUid;
    var full := db.(nextUid := U16_MAX);
    RunSplit(db, Churn(op, db.nextUid, n), [op, other]);
    ChurnRun(db, op, n);
    LastCreated(full, op, other);
    HandedOutAgain(Step(full, op).0, other);
    assert [op, other][1..] == [other];
    assert Run(full, [op, other]) == Run(Step(full, op).0, [other]);
  }

  lemma LastCreated(db: Db, op: Op, other: Op)
    requires Good(db) && db.nextUid == U16_MAX && |db.users| <= MAX_USERS - 2
    requires Creatable(db, op) && Creatable(db, other) && op.username != other.username
    ensures var db' := Step(db, op).0;
            Sorted(db'.users) && db'.nextUid == U16_MAX && HasUid(db'.users, U16_MAX) && CreateStep(db', other).1.Ok?
  {
    hide ValidUsername, Insert, Pushed, Sorted;
    var u := NewAccount(db, op);
    SortedAscending(db.users);
    PushedIsInsert(db.users, u);
    InsertLast(db.users, u);
    LastSorted(db.users, u);
    assert (db.users + [u])[|db.users|] == u;
  }

  lemma LastSorted(users: Accounts, u: Account)
    requires Sorted(users) && forall i | 0 <= i < |users| :: users[i].uid < u.uid
    ensures Sorted(users + [u])
  {
  }

  // ---------- rollback ----------

  /** No other account has the uid of this one. */
  predicate Alone(users: Accounts, i: nat)
    requires i < |users|
  {
    forall k | 0 <= k < |users| && k != i :: users[k].uid != users[i].uid
  }

  lemma {:induction false} InsertBack(users: Accounts, i: nat)
    requires Ascending(users) && i < |users| && Alone(users, i)
    ensures Insert(users[..i] + users[i + 1..], users[i]) == users
    decreases i
  {
    var s, u, rest := users[..i] + users[i + 1..], users[i], users[1..];
    assert users == [users[0]] + rest;
    if i == 0 {
      assert s == rest;
      if rest != [] {
        AscendingOrder(users, 0, 1);
      }
    } else {
      AscendingOrder(users, 0, i);
      assert s == [users[0]] + (rest[..i - 1] + rest[i..]);
      assert s[1..] == rest[..i - 1] + rest[i..];
      TailAlone(users, i);
      InsertBack(rest, i - 1);
    }
  }

  lemma TailAlone(users: Accounts, i: nat)
    requires Ascending(users) && 0 < i < |users| && Alone(users, i)
    ensures Ascending(users[1..]) && Alone(users[1..], i - 1)
  {
    var rest := users[1..];
    assert forall k | 0 <= k < |rest| :: rest[k] == users[k + 1];
  }

  lemma AloneExactly(users: Accounts, i: nat)
    requires i < |users|
    ensures Alone(users, i) <==> !HasUid(users[..i] + users[i + 1..], users[i].uid)
  {
    var s := users[..i] + users[i + 1..];
    assert forall k | 0 <= k < |s| :: s[k] == users[if k < i then k else k + 1];
    if HasUid(s, users[i].uid) {
      var k :| 0 <= k < |s| && s[k].uid == users[i].uid;
      assert users[if k < i then k else k + 1].uid == users[i].uid;
    } else {
      forall k | 0 <= k < |users| && k != i
        ensures users[k].uid != users[i].uid
      {
        assert s[if k < i then k else k - 1] == users[k];
      }
    }
  }

  /**
   Putting a deleted account back leaves the database as it was, if and only if no other
   account had its uid.
   */
  lemma RollBackExactly(db: Db, uid: u16)
    requires Rooted(db) && DeleteStep(db, uid).1.Ok?
    ensures var user, gone := db.users[Position(db.users, uid)], DeleteStep(db, uid).0;
            RestoreStep(gone, user).0 == db <==> !HasUid(gone.users, uid)
  {
    hide Ascending, Alone, HasUid;
    var i := Position(db.users, uid);
    var gone := DeleteStep(db, uid).0;
    AloneExactly(db.users, i);
    if !HasUid(gone.users, uid) {
      RemoveKeeps(db, i);
      PushedIsInsert(gone.users, db.users[i]);
      InsertBack(db.users, i);
    }
  }

  // ---------- the database object ----------

  class UserDB {
    var users: Accounts
    var nextUid: u16

    ghost function Value(): Db
      reads this
    {
      Db(users, nextUid)
    }

    /** What every method keeps; a database read from a file need not have it. */
    ghost predicate Valid()
      reads this
    {
      Rooted(Value())
    }

    constructor (db: Db)
      ensures Value() == db
    {
      users, nextUid := db.users, db.nextUid;
    }

    /** Adds one account, or says which check refused it; a strict order is lost only to a uid handed out twice. */
    method CreateUser(username: Text, passwordLen: nat, role: Role, salt: Salt, passwordHash: Hash, now: u64)
      returns (r: Outcome)
      modifies this
      ensures old(Valid()) ==> Valid()
      ensures var op := Create(username, passwordLen, role, salt, passwordHash, now);
              && Effect(old(Value()), op, Value(), r)
              && (r.Err? <==> Refusal(old(Value()), op).Some?)
              && (r.Err? ==> r.error == Refusal(old(Value()), op).value)
      ensures r.Ok? && old(Valid()) && Sorted(old(users)) ==> (Sorted(users) <==> !HasUid(old(users), r.value))
    {
      hide Effect, Rooted, Sorted, ValidUsername, LegalName, SortByUid, HomeDir, HasUid;
      ValidIsLegal(username);
      ghost var was, op := Value(), Create(username, passwordLen, role, salt, passwordHash, now);
      StepEffect(was, op);
      if Rooted(was) {
        StepKeeps(was, op);
        if Sorted(was.users) && CreateStep(was, op).1.Ok? {
          CreateKeepsExactly(was, op);
        }
      }
      if !ValidUsername(username) {
        return Err(InvalidUsername);
      }
      if passwordLen < 4 {
        return Err(InvalidPassword);
      }
      if HasName(users, username) {
        return Err(UserExists);
      }
      if |users| >= MAX_USERS {
        return Err(TooManyUsers);
      }
      var uid := nextUid;
      nextUid := SaturatingAdd16(nextUid, 1);
      users := users + [Account(uid, username, passwordHash, salt, role, HomeDir(uid, username), true, now, 0)];
      users := SortByUid(users);
      return Ok(uid);
    }

    /** Takes away one account with the uid, never root. */
    method DeleteUser(uid: u16) returns (r: Outcome)
      modifies this
      ensures old(Valid()) ==> Valid()
      ensures Effect(old(Value()), Delete(uid), Value(), r)
      ensures r == Err(CannotDeleteRoot) <==> uid == 0
      ensures r == Err(UserNotFound) <==> uid != 0 && !HasUid(old(users), uid)
    {
      hide Effect, Rooted;
      ghost var was := Value();
      StepEffect(was, Delete(uid));
      if Rooted(was) {
        StepKeeps(was, Delete(uid));
      }
      if uid == 0 {
        return Err(CannotDeleteRoot);
      }
      var i := Position(users, uid);
      if i == |users| {
        return Err(UserNotFound);
      }
      users := users[..i] + users[i + 1..];
      return Ok(uid);
    }

    /** Puts an account back under its uid, unless the uid is taken. */
    method RestoreUserForRollback(user: Account)
      modifies this
      ensures old(Valid()) ==> Valid()
      ensures Effect(old(Value()), Restore(user), Value(), Ok(user.uid))
      ensures HasUid(users, user.uid)
    {
      hide Effect, Rooted, SortByUid;
      ghost var was := Value();
      StepEffect(was, Restore(user));
      PushedCounts(was.users, user);
      if Rooted(was) {
        StepKeeps(was, Restore(user));
      }
      if !HasUid(users, user.uid) {
        nextUid := Max(nextUid, SaturatingAdd16(user.uid, 1));
        users := users + [user];
        users := SortByUid(users);
        assert user in users;
      }
    }
  }
}
