/**
 * Accounts: the password rule, the rows a new or restored account gets, the
 * statuses an owner moves a waiter's account through, and the gates of
 * registration, activation and setting a waiter's password.
 *
 * Mail delivery, password hashing and the signed keys sent by mail are
 * outside the model: a handler receives the hash it stores, and whether the
 * mail went out or the key checked out, as parameters.
 */
module Accounts {
  import opened Common
  import opened Store

  // ------------------------------------------------------------ passwords

  /** The character classes `validate_password` searches for. */
  datatype CharClass = Special | Digit | Lower | Upper

  predicate InClass(c: char, cls: CharClass)
  {
    match cls
    case Special => c in "!@#$%^&*(),."
    case Digit => '0' <= c <= '9'
    case Lower => 'a' <= c <= 'z'
    case Upper => 'A' <= c <= 'Z'
  }

  /** `re.search('[...]', p) is not None` for one class. */
  function Search(p: string, cls: CharClass): (found: bool)
    ensures found <==> exists i :: 0 <= i < |p| && InClass(p[i], cls)
  {
    if p == [] then false
    else if InClass(p[0], cls) then true
    else
      var found := Search(p[1..], cls);
      assert forall i :: 1 <= i < |p| ==> p[1..][i - 1] == p[i];
      found
  }

  /** `validate_password`: a special character, a digit, a lower-case and an
      upper-case letter, and at least eight characters. */
  function PasswordValid(p: string): (ok: bool)
    ensures ok <==>
      (exists i :: 0 <= i < |p| && InClass(p[i], Special))
      && (exists i :: 0 <= i < |p| && InClass(p[i], Digit))
      && (exists i :: 0 <= i < |p| && InClass(p[i], Lower))
      && (exists i :: 0 <= i < |p| && InClass(p[i], Upper))
      && |p| >= 8
  {
    if !Search(p, Special) then false
    else if !Search(p, Digit) then false
    else if !Search(p, Lower) then false
    else if !Search(p, Upper) then false
    else |p| >= 8
  }

  /** A password the rule accepts, and one it refuses for its length alone. */
  lemma PasswordExamples()
    ensures PasswordValid("Kelner1!")
    ensures !PasswordValid("Kel1!")
  {
    assert InClass("Kelner1!"[7], Special) && InClass("Kelner1!"[6], Digit);
    assert InClass("Kelner1!"[1], Lower) && InClass("Kelner1!"[0], Upper);
  }

  // ------------------------------------------------------------ new rows

  /** `insert_worker`: a waiter of the restaurant with an empty password, in
      the column's default status, not yet activated. */
  function NewWorker(email: string, firstName: string, surname: string, rid: int): (w: Worker)
    ensures w.kind == Staff && w.restaurant == rid && w.email == email
    ensures w.firstName == firstName && w.surname == surname
    ensures w.status == Disabled && w.password == ""
  {
    Worker(email, firstName, surname, "", Disabled, rid, Staff)
  }

  /** `restore_deleted_worker`: the account is reset as if new; the e-mail
      address and the restaurant stay those of the deleted account. */
  function Restored(w: Worker, firstName: string, surname: string): (r: Worker)
    ensures r.email == w.email && r.restaurant == w.restaurant && r.kind == w.kind
    ensures r.firstName == firstName && r.surname == surname
    ensures r.status == Disabled && r.password == ""
  {
    w.(status := Disabled, password := "", firstName := firstName, surname := surname)
  }

  /** A restored waiter's account is the one a new waiter of its restaurant
      would get, even when the owner restoring it runs another restaurant. */
  lemma RestoredIsLikeNew(w: Worker, firstName: string, surname: string)
    requires w.kind == Staff
    ensures Restored(w, firstName, surname) == NewWorker(w.email, firstName, surname, w.restaurant)
  {
  }

  /** `create_user`: a customer who still has to activate the account. */
  function NewUser(email: string, firstName: string, hash: string): (u: User)
    ensures u.kind == Customer && u.email == email && u.firstName == firstName
    ensures u.status == Disabled && u.password == Some(hash)
  {
    User(email, firstName, Some(hash), Disabled, Customer)
  }

  /** `create_user_social`: an active customer without a password. */
  function SocialUser(email: string, firstName: string): (u: User)
    ensures u.kind == Customer && u.email == email && u.firstName == firstName
    ensures u.status == Active && u.password.None?
  {
    User(email, firstName, None, Active, Customer)
  }

  // -------------------------------------------------------------- lookups

  function WorkersWithEmail(workers: map<int, Worker>, email: string, kind: UserType): set<int>
  {
    set k | k in workers && workers[k].email == email && workers[k].kind == kind
  }

  /** `get_user_by_email` on the workers' table: the first matching row. */
  ghost function FirstWorker(workers: map<int, Worker>, email: string, kind: UserType): Option<int>
  {
    var ks := WorkersWithEmail(workers, email, kind);
    if ks == {} then None else Some(MinKey(ks))
  }

  method FindWorker(workers: map<int, Worker>, email: string, kind: UserType) returns (o: Option<int>)
    ensures o == FirstWorker(workers, email, kind)
    ensures o.Some? ==> o.value in workers && workers[o.value].email == email && workers[o.value].kind == kind
  {
    var ks := WorkersWithEmail(workers, email, kind);
    if ks == {} {
      o := None;
    } else {
      var k := FindMin(ks);
      o := Some(k);
    }
  }

  function UsersWithEmail(users: map<int, User>, email: string, kind: UserType): set<int>
  {
    set k | k in users && users[k].email == email && users[k].kind == kind
  }

  /** `get_user_by_email` on the customers' table. */
  ghost function FirstUser(users: map<int, User>, email: string, kind: UserType): Option<int>
  {
    var ks := UsersWithEmail(users, email, kind);
    if ks == {} then None else Some(MinKey(ks))
  }

  method FindUser(users: map<int, User>, email: string, kind: UserType) returns (o: Option<int>)
    ensures o == FirstUser(users, email, kind)
    ensures o.Some? ==> o.value in users && users[o.value].email == email && users[o.value].kind == kind
  {
    var ks := UsersWithEmail(users, email, kind);
    if ks == {} {
      o := None;
    } else {
      var k := FindMin(ks);
      o := Some(k);
    }
  }

  /** The e-mail column is unique: an insert with an address already in the
      table fails. */
  predicate WorkerEmailTaken(workers: map<int, Worker>, email: string)
  {
    exists k | k in workers :: workers[k].email == email
  }

  predicate UserEmailTaken(users: map<int, User>, email: string)
  {
    exists k | k in users :: users[k].email == email
  }

  /** `get_user(db, id, UserType.worker)`: a waiter's row; owners share the
      table but are not found. */
  predicate IsWaiter(workers: map<int, Worker>, id: int)
  {
    id in workers && workers[id].kind == Staff
  }

  // ---------------------------------------------------- owners and waiters

  /** What an owner does to a waiter's account. */
  datatype OwnerAction = Remove | Enable | Disable

  /** The status an owner's action gives an account in status `s`, or None
      when the handler refuses: only a blocked account can be enabled, only
      an active one blocked, and any account not yet deleted can be deleted. */
  function Transition(a: OwnerAction, s: AccountStatus): (r: Option<AccountStatus>)
    ensures a == Remove ==> (r.Some? <==> s != Deleted) && (r.Some? ==> r.value == Deleted)
    ensures a == Enable ==> (r.Some? <==> s == Blocked) && (r.Some? ==> r.value == Active)
    ensures a == Disable ==> (r.Some? <==> s == Active) && (r.Some? ==> r.value == Blocked)
  {
    match a
    case Remove =>
      if s == Deleted then None else Some(Deleted)
    case Enable =>
      (match s
       case Active => None
       case Deleted => None
       case Disabled => None
       case Blocked => Some(Active))
    case Disable =>
      (match s
       case Blocked => None
       case Deleted => None
       case Disabled => None
       case Active => Some(Blocked))
  }

  /** Enabling undoes blocking; a deleted account stays deleted, and no action
      of the owner makes an account "not yet activated". */
  lemma OwnerActionsRoundTrip(s: AccountStatus, a: OwnerAction)
    ensures Transition(Disable, s).Some? ==> Transition(Enable, Transition(Disable, s).value) == Some(s)
    ensures Transition(Enable, s).Some? ==> Transition(Disable, Transition(Enable, s).value) == Some(s)
    ensures Transition(a, Deleted) == None
    ensures Transition(a, s) != Some(Disabled)
  {
  }

  /** `remove_worker`, `enable_worker` and `disable_worker`: a missing waiter
      is dereferenced, another restaurant's waiter is refused with 401, a
      refused transition with 400; otherwise the account takes its new
      status and nothing else changes. */
  method ChangeWorkerStatus(db: Session, ownerRid: int, id: int, a: OwnerAction) returns (r: Reply<()>)
    modifies db`workers
    ensures r == Crash <==> !IsWaiter(old(db.workers), id)
    ensures r == Refused(401) <==> IsWaiter(old(db.workers), id) && old(db.workers)[id].restaurant != ownerRid
    ensures r == Refused(400) <==>
      (IsWaiter(old(db.workers), id) && old(db.workers)[id].restaurant == ownerRid
      && Transition(a, old(db.workers)[id].status).None?)
    ensures r.Ok? ==>
      (IsWaiter(old(db.workers), id)
      && db.workers == old(db.workers)[id := old(db.workers)[id].(status := Transition(a, old(db.workers)[id].status).value)])
    ensures !r.Ok? ==> db.workers == old(db.workers)
  {
    if !IsWaiter(db.workers, id) {
      return Crash;
    }
    var w := db.workers[id];
    if w.restaurant != ownerRid {
      return Refused(401);
    }
    var next := Transition(a, w.status);
    if next.None? {
      return Refused(400);
    }
    db.workers := db.workers[id := w.(status := next.value)];
    r := Ok(());
  }

  /** The mail `resend_worker_activation_link` sends. */
  datatype Mail = PasswordResetMail | ActivationMail

  /** `resend_worker_activation_link`: an active waiter gets a password reset
      mail and one not yet activated gets the activation mail again; deleted
      and blocked accounts are refused. */
  method ResendWorkerActivationLink(db: Session, ownerRid: int, id: int) returns (r: Reply<Mail>)
    ensures r == Crash <==> !IsWaiter(db.workers, id)
    ensures r == Refused(401) <==> IsWaiter(db.workers, id) && db.workers[id].restaurant != ownerRid
    ensures r == Refused(400) <==>
      (IsWaiter(db.workers, id) && db.workers[id].restaurant == ownerRid
      && db.workers[id].status in {Deleted, Blocked})
    ensures r == Ok(PasswordResetMail) <==>
      IsWaiter(db.workers, id) && db.workers[id].restaurant == ownerRid && db.workers[id].status == Active
    ensures r == Ok(ActivationMail) <==>
      IsWaiter(db.workers, id) && db.workers[id].restaurant == ownerRid && db.workers[id].status == Disabled
  {
    if !IsWaiter(db.workers, id) {
      return Crash;
    }
    var w := db.workers[id];
    if w.restaurant != ownerRid {
      return Refused(401);
    }
    if w.status == Deleted {
      return Refused(400);
    }
    if w.status == Blocked {
      return Refused(400);
    }
    if w.status == Active {
      return Ok(PasswordResetMail);
    }
    r := Ok(ActivationMail);
  }

  /** After a row is inserted under a key above all others, or a row changes
      without changing its address or kind, the first row with an address is
      known. */
  lemma FirstWorkerAfterInsert(workers: map<int, Worker>, k: int, w: Worker)
    requires forall j :: j in workers ==> j < k
    requires WorkersWithEmail(workers, w.email, w.kind) == {}
    ensures FirstWorker(workers[k := w], w.email, w.kind) == Some(k)
  {
    assert WorkersWithEmail(workers[k := w], w.email, w.kind) == {k};
  }

  lemma FirstWorkerAfterChange(workers: map<int, Worker>, k: int, w: Worker)
    requires k in workers && workers[k].email == w.email && workers[k].kind == w.kind
    ensures FirstWorker(workers[k := w], w.email, w.kind) == FirstWorker(workers, w.email, w.kind)
  {
    assert WorkersWithEmail(workers[k := w], w.email, w.kind) == WorkersWithEmail(workers, w.email, w.kind);
  }

  /** `create_worker`: an address in use by a waiter's account that is not
      deleted is refused; a deleted account with that address is restored,
      otherwise a new waiter is inserted (which fails if an owner has the
      address). The account is stored before the activation mail is sent;
      the mail helper returns true or raises, so a failed mail is an
      unhandled exception and the reply's 400 branch is never reached.
      Once stored, the address leads to a waiter with the given names, not
      yet activated. */
  method CreateWorker(db: Session, ownerRid: int, email: string, firstName: string, surname: string, mailSent: bool)
    returns (r: Reply<()>)
    modifies db`workers
    ensures var found := FirstWorker(old(db.workers), email, Staff);
      if found.Some? && old(db.workers)[found.value].status != Deleted then
        r == Refused(400) && db.workers == old(db.workers)
      else if found.Some? then
        db.workers == old(db.workers)[found.value := Restored(old(db.workers)[found.value], firstName, surname)]
        && r == (if mailSent then Ok(()) else Crash)
      else if WorkerEmailTaken(old(db.workers), email) then
        r == Crash && db.workers == old(db.workers)
      else
        db.workers == old(db.workers)[NextKey(old(db.workers).Keys) := NewWorker(email, firstName, surname, ownerRid)]
        && r == (if mailSent then Ok(()) else Crash)
    ensures r == Ok(()) || db.workers != old(db.workers) ==>
      (var k := FirstWorker(db.workers, email, Staff);
      k.Some? && k.value in db.workers
      && db.workers[k.value].status == Disabled && db.workers[k.value].password == ""
      && db.workers[k.value].firstName == firstName && db.workers[k.value].surname == surname)
  {
    var found := FindWorker(db.workers, email, Staff);
    if found.Some? && db.workers[found.value].status != Deleted {
      return Refused(400);
    }
    if found.Some? {
      var k := found.value;
      var w := Restored(db.workers[k], firstName, surname);
      FirstWorkerAfterChange(db.workers, k, w);
      db.workers := db.workers[k := w];
    } else {
      if exists j | j in db.workers :: db.workers[j].email == email {
        return Crash;
      }
      var k := FreshKey(db.workers);
      FirstWorkerAfterInsert(db.workers, k, NewWorker(email, firstName, surname, ownerRid));
      db.workers := db.workers[k := NewWorker(email, firstName, surname, ownerRid)];
    }
    r := if mailSent then Ok(()) else Crash;
  }

  /** The database's order on text under a deterministic collation: the
      collation's sort keys (what `strxfrm` computes) are compared, and equal
      keys fall back to code-point order. `key` is the collation. */
  predicate Collated(key: string -> string, a: string, b: string)
  {
    TextLess(key(a), key(b)) || (key(a) == key(b) && TextLess(a, b))
  }

  /** Whatever the collation, its order is a strict total order. */
  lemma CollatedIrreflexive(key: string -> string, a: string)
    ensures !Collated(key, a, a)
  {
    TextLessIrreflexive(key(a));
    TextLessIrreflexive(a);
  }

  lemma CollatedTransitive(key: string -> string, a: string, b: string, c: string)
    requires Collated(key, a, b) && Collated(key, b, c)
    ensures Collated(key, a, c)
  {
    if TextLess(key(a), key(b)) && TextLess(key(b), key(c)) {
      TextLessTransitive(key(a), key(b), key(c));
    } else if key(a) == key(b) && key(b) == key(c) {
      TextLessTransitive(a, b, c);
    }
  }

  lemma CollatedTotal(key: string -> string, a: string, b: string)
    ensures a == b || Collated(key, a, b) || Collated(key, b, a)
  {
    TextLessTotal(key(a), key(b));
    TextLessTotal(a, b);
  }

  /** The "C" collation, whose sort key is the text itself, is code-point
      order. */
  lemma CodePointCollation(a: string, b: string)
    ensures Collated(x => x, a, b) <==> TextLess(a, b)
  {
  }

  /** Whether a waiter comes before another in the list: by surname in the
      database's collation, ties by id (the database leaves them unordered). */
  predicate ListedBefore(workers: map<int, Worker>, key: string -> string, i: int, j: int)
    requires i in workers && j in workers
  {
    Collated(key, workers[i].surname, workers[j].surname) || (workers[i].surname == workers[j].surname && i < j)
  }

  /** The accounts `get_restaurant_workers` lists: the restaurant's waiters
      whose accounts are not deleted. */
  function ListedWorkers(workers: map<int, Worker>, rid: int): set<int>
  {
    set k | k in workers && workers[k].restaurant == rid && workers[k].kind == Staff && workers[k].status != Deleted
  }

  /** The first of a non-empty set of waiters in list order. */
  method FirstListed(workers: map<int, Worker>, key: string -> string, ids: set<int>) returns (m: int)
    requires ids != {} && ids <= workers.Keys
    ensures m in ids && forall k :: k in ids && k != m ==> ListedBefore(workers, key, m, k)
  {
    EmptyIff(ids);
    m :| m in ids;
    var rest := ids - {m};
    var seen := {m};
    while rest != {}
      invariant rest + seen == ids && m in seen && rest !! seen
      invariant forall k :: k in seen && k != m ==> ListedBefore(workers, key, m, k)
      decreases rest
    {
      EmptyIff(rest);
      var x :| x in rest;
      CollatedTotal(key, workers[x].surname, workers[m].surname);
      if ListedBefore(workers, key, x, m) {
        forall k | k in seen && k != x
          ensures ListedBefore(workers, key, x, k)
        {
          if k != m {
            var sx, sm, sk := workers[x].surname, workers[m].surname, workers[k].surname;
            if Collated(key, sx, sm) && Collated(key, sm, sk) {
              CollatedTransitive(key, sx, sm, sk);
            }
          }
        }
        m := x;
      } else {
        CollatedIrreflexive(key, workers[x].surname);
      }
      rest := rest - {x};
      seen := seen + {x};
    }
  }

  /** `get_restaurant_workers`: every listed waiter once, ordered by surname
      in the database's collation `key`. */
  method RestaurantWorkers(workers: map<int, Worker>, key: string -> string, rid: int) returns (ids: seq<int>)
    ensures forall k :: k in ids <==> k in ListedWorkers(workers, rid)
    ensures forall i, j :: 0 <= i < j < |ids| ==> ids[i] in workers && ids[j] in workers && ListedBefore(workers, key, ids[i], ids[j])
    ensures forall i, j :: 0 <= i < j < |ids| ==> ids[i] != ids[j]
  {
    var remaining := ListedWorkers(workers, rid);
    ids := [];
    while remaining != {}
      invariant remaining <= ListedWorkers(workers, rid) && remaining <= workers.Keys
      invariant forall k :: k in ListedWorkers(workers, rid) ==> (k in ids <==> k !in remaining)
      invariant forall k :: k in ids ==> k in ListedWorkers(workers, rid)
      invariant forall i, j :: 0 <= i < j < |ids| ==> ids[i] in workers && ids[j] in workers && ListedBefore(workers, key, ids[i], ids[j])
      invariant forall i, k :: 0 <= i < |ids| && k in remaining ==> ListedBefore(workers, key, ids[i], k)
      invariant forall i, j :: 0 <= i < j < |ids| ==> ids[i] != ids[j]
      decreases remaining
    {
      var m := FirstListed(workers, key, remaining);
      ids := ids + [m];
      remaining := remaining - {m};
    }
  }

  // ---------------------------------------------------------------- login

  /** `update_password`: a waiter sets a password with the key mailed to
      them. The new password must pass the rule and match its confirmation,
      the address must belong to a waiter not yet activated or active, and
      the key must be present, at least ten characters long and verify. Then
      the hash is stored and the account is active. */
  method UpdatePassword(db: Session, email: string, password: string, confirm: string,
                        key: Option<string>, keyVerified: bool, hash: string)
    returns (r: Reply<()>)
    modifies db`workers
    ensures r == Ok(()) || r == Refused(400)
    ensures r.Ok? <==>
      (PasswordValid(password) && password == confirm
      && FirstWorker(old(db.workers), email, Staff).Some?
      && old(db.workers)[FirstWorker(old(db.workers), email, Staff).value].status in {Disabled, Active}
      && key.Some? && |key.value| >= 10 && keyVerified)
    ensures r.Ok? ==>
      (var k := FirstWorker(old(db.workers), email, Staff).value;
      db.workers == old(db.workers)[k := old(db.workers)[k].(password := hash, status := Active)])
    ensures !r.Ok? ==> db.workers == old(db.workers)
  {
    if !PasswordValid(password) || password != confirm {
      return Refused(400);
    }
    var found := FindWorker(db.workers, email, Staff);
    if found.None? {
      return Refused(400);
    }
    var k := found.value;
    if db.workers[k].status != Disabled && db.workers[k].status != Active {
      return Refused(400);
    }
    if key.None? || |key.value| < 10 || !keyVerified {
      return Refused(400);
    }
    db.workers := db.workers[k := db.workers[k].(password := hash)];
    db.workers := db.workers[k := db.workers[k].(status := Active)];
    r := Ok(());
  }

  /** How `register` succeeded. */
  datatype Registered = PasswordAdded | AccountCreated

  /** `register`: the password rule, its confirmation and a name of at least
      three characters come first. An address with a customer account that
      has a password is refused; one without a password (a social login) gets
      the password and keeps its status; otherwise a new customer is created,
      not yet activated. */
  method Register(db: Session, email: string, password: string, confirm: string, name: Option<string>, hash: string)
    returns (r: Reply<Registered>)
    modifies db`users
    ensures var found := FirstUser(old(db.users), email, Customer);
      if !PasswordValid(password) || password != confirm || name.None? || |name.value| < 3 then
        r == Refused(400) && db.users == old(db.users)
      else if found.Some? && old(db.users)[found.value].password.Some? then
        r == Refused(400) && db.users == old(db.users)
      else if found.Some? then
        r == Ok(PasswordAdded)
        && db.users == old(db.users)[found.value := old(db.users)[found.value].(password := Some(hash))]
      else if UserEmailTaken(old(db.users), email) then
        r == Crash && db.users == old(db.users)
      else
        r == Ok(AccountCreated)
        && db.users == old(db.users)[NextKey(old(db.users).Keys) := NewUser(email, name.value, hash)]
  {
    if !PasswordValid(password) || password != confirm {
      return Refused(400);
    }
    if name.None? || |name.value| < 3 {
      return Refused(400);
    }
    var found := FindUser(db.users, email, Customer);
    if found.Some? {
      var k := found.value;
      if db.users[k].password.Some? {
        return Refused(400);
      }
      db.users := db.users[k := db.users[k].(password := Some(hash))];
      return Ok(PasswordAdded);
    }
    if exists j | j in db.users :: db.users[j].email == email {
      return Crash;
    }
    var k := FreshKey(db.users);
    db.users := db.users[k := NewUser(email, name.value, hash)];
    r := Ok(AccountCreated);
  }

  /** `activate_account`: only a customer account not yet activated, with a
      key of at least ten characters that verifies, becomes active. */
  method ActivateAccount(db: Session, email: string, token: string, tokenVerified: bool) returns (r: Reply<()>)
    modifies db`users
    ensures r == Ok(()) || r == Refused(400)
    ensures r.Ok? <==>
      (FirstUser(old(db.users), email, Customer).Some?
      && old(db.users)[FirstUser(old(db.users), email, Customer).value].status == Disabled
      && |token| >= 10 && tokenVerified)
    ensures r.Ok? ==>
      (var k := FirstUser(old(db.users), email, Customer).value;
      db.users == old(db.users)[k := old(db.users)[k].(status := Active)])
    ensures !r.Ok? ==> db.users == old(db.users)
  {
    var found := FindUser(db.users, email, Customer);
    if found.None? {
      return Refused(400);
    }
    var k := found.value;
    if db.users[k].status != Disabled {
      return Refused(400);
    }
    if |token| < 10 || !tokenVerified {
      return Refused(400);
    }
    db.users := db.users[k := db.users[k].(status := Active)];
    r := Ok(());
  }

  /** The account step of `google_login`: the customer with the address, or
      a new active customer without a password. */
  method SocialLogin(db: Session, email: string, firstName: string) returns (r: Reply<int>)
    modifies db`users
    ensures r.Ok? || r == Crash
    ensures FirstUser(old(db.users), email, Customer).Some? ==>
      r == Ok(FirstUser(old(db.users), email, Customer).value) && db.users == old(db.users)
    ensures FirstUser(old(db.users), email, Customer).None? && UserEmailTaken(old(db.users), email) ==>
      r == Crash && db.users == old(db.users)
    ensures FirstUser(old(db.users), email, Customer).None? && !UserEmailTaken(old(db.users), email) ==>
      r == Ok(NextKey(old(db.users).Keys))
      && db.users == old(db.users)[NextKey(old(db.users).Keys) := SocialUser(email, firstName)]
  {
    var found := FindUser(db.users, email, Customer);
    if found.Some? {
      return Ok(found.value);
    }
    if exists j | j in db.users :: db.users[j].email == email {
      return Crash;
    }
    var k := FreshKey(db.users);
    db.users := db.users[k := SocialUser(email, firstName)];
    r := Ok(k);
  }
}
