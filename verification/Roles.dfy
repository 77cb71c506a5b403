/**
 Roles and access-control lists: crates/engine/src/engine_ddl_pubsub_role.rs and
 crates/engine/src/engine_ddl_acl.rs.

 ACLs name grantees by role name, on nine kinds of object, while a role's identity is its OID.
 */
module Roles {
  import opened Primitives

  const U32_MAX: nat := 0xFFFF_FFFF
  const PUBLIC := "public"
  const POSTGRES := "postgres"

  type Privilege = nat
  type Acl = map<string, set<Privilege>>

  datatype Role = Role(oid: nat, login: bool)

  datatype Object =
    | Table(name: string) | View(name: string) | MaterializedView(name: string) | Sequence(name: string)
    | Database(name: string) | Tablespace(name: string) | Function(name: string)
    | PublicSchema | DefaultTables

  /** What GRANT and REVOKE may call a relation; other kinds of object have statements of their own. */
  datatype Keyword = AnyRelation | OnTable | OnView | OnMaterializedView | OnSequence

  /** TABLE also covers the two kinds of view. */
  predicate KeywordFits(keyword: Keyword, o: Object)
  {
    match o
    case Table(_) => keyword.AnyRelation? || keyword.OnTable?
    case View(_) => keyword.AnyRelation? || keyword.OnTable? || keyword.OnView?
    case MaterializedView(_) => keyword.AnyRelation? || keyword.OnTable? || keyword.OnMaterializedView?
    case Sequence(_) => keyword.AnyRelation? || keyword.OnSequence?
    case _ => true
  }

  datatype Catalog = Catalog(
    roles: map<string, Role>, comments: map<string, string>, acls: map<Object, Acl>, nextOid: nat)

  /** "postgres" is the bootstrap role and has no entry of its own. */
  predicate RoleExists(c: Catalog, name: string) { name == POSTGRES || name in c.roles }

  predicate GranteeExists(c: Catalog, name: string) { RoleExists(c, name) || name == PUBLIC }

  // ---------------------------------------------------------------- what must hold

  ghost predicate GranteesExist(c: Catalog)
  {
    forall o, g :: o in c.acls && g in c.acls[o] ==> GranteeExists(c, g)
  }

  ghost predicate OidsDistinct(roles: map<string, Role>, next: nat)
  {
    && (forall n :: n in roles ==> roles[n].oid < next)
    && (forall m, n :: m in roles && n in roles && m != n ==> roles[m].oid != roles[n].oid)
  }

  ghost predicate Inv(c: Catalog)
  {
    && GranteesExist(c) && OidsDistinct(c.roles, c.nextOid)
    && POSTGRES !in c.roles && c.comments.Keys <= c.roles.Keys + {POSTGRES}
  }

  // ---------------------------------------------------------------- statements

  function SetOf(privileges: seq<Privilege>): set<Privilege> { set p | p in privileges }

  function PrivilegesOf(acl: Acl, grantee: string): set<Privilege>
  {
    if grantee in acl then acl[grantee] else {}
  }

  function Granted(acl: Acl, grantee: string, privileges: seq<Privilege>): Acl
  {
    acl[grantee := PrivilegesOf(acl, grantee) + SetOf(privileges)]
  }

  /** An entry left without privileges is removed. */
  function Revoked(acl: Acl, grantee: string, privileges: seq<Privilege>): Acl
  {
    if grantee !in acl then acl
    else
      var left := acl[grantee] - SetOf(privileges);
      if left == {} then acl - {grantee} else acl[grantee := left]
  }

  /** Move one grantee's entry to another name, replacing what was there. */
  function Moved(acl: Acl, from: string, to: string): Acl
  {
    if from in acl then (acl - {from})[to := acl[from]] else acl
  }

  predicate HasDependencies(c: Catalog, role: string)
  {
    role in c.comments || exists o :: o in c.acls && role in c.acls[o]
  }

  predicate CanDrop(c: Catalog, names: seq<string>, ifExists: bool)
  {
    && (forall i, j :: 0 <= i < j < |names| ==> names[i] != names[j])
    && forall i :: 0 <= i < |names| ==>
         && names[i] != POSTGRES
         && (ifExists || names[i] in c.roles)
         && (names[i] in c.roles ==> !HasDependencies(c, names[i]))
  }

  predicate CanRename(c: Catalog, from: string, to: string)
  {
    from != POSTGRES && from in c.roles && !RoleExists(c, to)
  }

  function Renamed(c: Catalog, from: string, to: string): Catalog
    requires from in c.roles
  {
    Catalog((c.roles - {from})[to := c.roles[from]],
            if from in c.comments then (c.comments - {from})[to := c.comments[from]] else c.comments,
            map o | o in c.acls :: Moved(c.acls[o], from, to),
            c.nextOid)
  }

  datatype Statement =
    | CreateRole(name: string, login: bool)
    | AlterLogin(name: string, login: bool)
    | DropRole(names: seq<string>, ifExists: bool)
    | RenameRole(from: string, to: string)
    | CommentOnRole(name: string, comment: Option<string>)
    | Grant(target: Object, keyword: Keyword, grantee: string, privileges: seq<Privilege>)
    | Revoke(target: Object, keyword: Keyword, grantee: string, privileges: seq<Privilege>)
    | TakeOid                                   // any other statement that creates a catalog object

  predicate Accepts(c: Catalog, s: Statement)
  {
    match s
    case CreateRole(name, _) => !RoleExists(c, name) && c.nextOid < U32_MAX
    case AlterLogin(name, _) => name != POSTGRES && name in c.roles
    case DropRole(names, ifExists) => CanDrop(c, names, ifExists)
    case RenameRole(from, to) => CanRename(c, from, to)
    case CommentOnRole(name, _) => RoleExists(c, name)
    case Grant(o, keyword, grantee, _) => o in c.acls && KeywordFits(keyword, o) && GranteeExists(c, grantee)
    case Revoke(o, keyword, grantee, _) => o in c.acls && KeywordFits(keyword, o) && GranteeExists(c, grantee)
    case TakeOid => c.nextOid < U32_MAX
  }

  /** A refused statement changes nothing. */
  function Step(c: Catalog, s: Statement): Catalog
  {
    if !Accepts(c, s) then c
    else match s
      case CreateRole(name, login) => c.(roles := c.roles[name := Role(c.nextOid, login)], nextOid := c.nextOid + 1)
      case AlterLogin(name, login) => c.(roles := c.roles[name := c.roles[name].(login := login)])
      case DropRole(names, _) => c.(roles := c.roles - set n | n in names)
      case RenameRole(from, to) => Renamed(c, from, to)
      case CommentOnRole(name, Some(comment)) => c.(comments := c.comments[name := comment])
      case CommentOnRole(name, None) => c.(comments := c.comments - {name})
      case Grant(o, _, grantee, privileges) => c.(acls := c.acls[o := Granted(c.acls[o], grantee, privileges)])
      case Revoke(o, _, grantee, privileges) => c.(acls := c.acls[o := Revoked(c.acls[o], grantee, privileges)])
      case TakeOid => c.(nextOid := c.nextOid + 1)
  }

  function Run(c: Catalog, statements: seq<Statement>): Catalog
    decreases |statements|
  {
    if statements == [] then c else Run(Step(c, statements[0]), statements[1..])
  }

  // ---------------------------------------------------------------- invariants over runs

  lemma RenameKeepsInv(c: Catalog, from: string, to: string)
    requires Inv(c) && CanRename(c, from, to)
    ensures Inv(Renamed(c, from, to))
  {
    var d := Renamed(c, from, to);
    forall o, g | o in d.acls && g in d.acls[o] ensures GranteeExists(d, g) {
      assert d.acls[o] == Moved(c.acls[o], from, to);
      assert g != to ==> g in c.acls[o] && g != from && GranteeExists(c, g);
    }
  }

  lemma DropKeepsInv(c: Catalog, names: seq<string>, ifExists: bool)
    requires Inv(c) && CanDrop(c, names, ifExists)
    ensures Inv(Step(c, DropRole(names, ifExists)))
  {
    var d := Step(c, DropRole(names, ifExists));
    forall o, g | o in d.acls && g in d.acls[o] ensures GranteeExists(d, g) {
      assert GranteeExists(c, g);
      if g in c.roles { assert HasDependencies(c, g) && g !in names; }
    }
    forall n | n in d.comments ensures n in d.roles.Keys + {POSTGRES} {
      assert n != POSTGRES ==> HasDependencies(c, n) && n !in names;
    }
  }

  lemma StepKeepsInv(c: Catalog, s: Statement)
    requires Inv(c)
    ensures Inv(Step(c, s))
  {
    if Accepts(c, s) {
      match s
      case RenameRole(from, to) => RenameKeepsInv(c, from, to);
      case DropRole(names, ifExists) => DropKeepsInv(c, names, ifExists);
      case _ =>
        var d := Step(c, s);
        forall o, g | o in d.acls && g in d.acls[o] ensures GranteeExists(d, g) {
          assert g in c.acls[o] ==> GranteeExists(c, g);
        }
    }
  }

  /** Every role in `d` that could have existed in `c`, by its OID, did exist there. */
  ghost predicate OidsNotReused(c: Catalog, d: Catalog)
  {
    && c.nextOid <= d.nextOid
    && forall n :: n in d.roles && d.roles[n].oid < c.nextOid ==> HasOid(c.roles, d.roles[n].oid)
  }

  ghost predicate HasOid(roles: map<string, Role>, oid: nat)
  {
    exists n :: n in roles && roles[n].oid == oid
  }

  lemma StepReusesNoOid(c: Catalog, s: Statement)
    requires Inv(c)
    ensures OidsNotReused(c, Step(c, s))
  {
    var d := Step(c, s);
    forall n | n in d.roles && d.roles[n].oid < c.nextOid ensures HasOid(c.roles, d.roles[n].oid) {
      var before := if Accepts(c, s) && s.RenameRole? && n == s.to then s.from else n;
      assert before in c.roles && c.roles[before].oid == d.roles[n].oid;
    }
  }

  /** Over any run of role, grant and revoke statements every ACL grantee exists, and an OID that has
      stopped naming a role never names one again. */
  lemma {:induction false} RoleRunsStayConsistent(c: Catalog, statements: seq<Statement>)
    requires Inv(c)
    ensures Inv(Run(c, statements)) && OidsNotReused(c, Run(c, statements))
    decreases |statements|
  {
    if statements != [] {
      var d := Step(c, statements[0]);
      var e := Run(c, statements);
      StepKeepsInv(c, statements[0]);
      StepReusesNoOid(c, statements[0]);
      RoleRunsStayConsistent(d, statements[1..]);
      forall n | n in e.roles && e.roles[n].oid < c.nextOid ensures HasOid(c.roles, e.roles[n].oid) {
        var m :| m in d.roles && d.roles[m].oid == e.roles[n].oid;
      }
    }
  }

  // ---------------------------------------------------------------- what each statement does

  /** Every refusal has one of these reasons, and each of them is one. */
  lemma RefusedIff(c: Catalog, s: Statement)
    ensures !Accepts(c, s) <==>
      match s
      case CreateRole(name, _) => name == "postgres" || name in c.roles || c.nextOid >= 0xFFFF_FFFF
      case AlterLogin(name, _) => name == "postgres" || name !in c.roles
      case DropRole(names, ifExists) =>
        || (exists i, j :: 0 <= i < j < |names| && names[i] == names[j])
        || "postgres" in names
        || (!ifExists && exists i :: 0 <= i < |names| && names[i] !in c.roles)
        || (exists i :: 0 <= i < |names| && names[i] in c.roles && IsReferenced(c, names[i]))
      case RenameRole(from, to) => from == "postgres" || from !in c.roles || to == "postgres" || to in c.roles
      case CommentOnRole(name, _) => name != "postgres" && name !in c.roles
      case Grant(o, keyword, grantee, _) => CannotAddress(c, o, keyword, grantee)
      case Revoke(o, keyword, grantee, _) => CannotAddress(c, o, keyword, grantee)
      case TakeOid => c.nextOid >= 0xFFFF_FFFF
  {
  }

  /** Some object grants to the role, or it has a comment. */
  predicate IsReferenced(c: Catalog, role: string)
  {
    role in c.comments || exists o :: o in c.acls && role in c.acls[o]
  }

  predicate CannotAddress(c: Catalog, o: Object, keyword: Keyword, grantee: string)
  {
    || o !in c.acls
    || (grantee != "postgres" && grantee != "public" && grantee !in c.roles)
    || (o.Table? && keyword !in {AnyRelation, OnTable})
    || (o.View? && keyword !in {AnyRelation, OnTable, OnView})
    || (o.MaterializedView? && keyword !in {AnyRelation, OnTable, OnMaterializedView})
    || (o.Sequence? && keyword !in {AnyRelation, OnSequence})
  }

  /** Privileges of one grantee on one object; an object that is not there grants nothing. */
  function PrivilegesOn(c: Catalog, o: Object, grantee: string): set<Privilege>
  {
    if o in c.acls then PrivilegesOf(c.acls[o], grantee) else {}
  }

  /** GRANT adds and REVOKE removes exactly the listed privileges, of one grantee on one object. */
  lemma PrivilegesAfter(c: Catalog, s: Statement, o: Object, grantee: string, x: Privilege)
    requires Accepts(c, s) && (s.Grant? || s.Revoke?)
    ensures var d := Step(c, s); var addressed := o == s.target && grantee == s.grantee && x in s.privileges;
      && d.roles == c.roles && d.comments == c.comments && d.nextOid == c.nextOid && d.acls.Keys == c.acls.Keys
      && (x in PrivilegesOn(d, o, grantee) <==>
            if addressed then s.Grant? else x in PrivilegesOn(c, o, grantee))
  {
  }

  /** The role statements change the listed roles and nothing else; a dropped role is gone, a created
      one has the next OID, a login flag moves alone. */
  lemma RolesAfter(c: Catalog, s: Statement, name: string)
    requires Accepts(c, s) && !s.RenameRole?
    ensures var d := Step(c, s);
      match s
      case CreateRole(created, login) =>
        && d.acls == c.acls && d.comments == c.comments && d.nextOid == c.nextOid + 1
        && created in d.roles && d.roles[created] == Role(c.nextOid, login)
        && (name != created ==> SameRole(c, d, name))
      case AlterLogin(altered, login) =>
        && d.acls == c.acls && d.comments == c.comments && d.nextOid == c.nextOid
        && altered in d.roles && d.roles[altered] == Role(c.roles[altered].oid, login)
        && (name != altered ==> SameRole(c, d, name))
      case DropRole(names, _) =>
        && d.acls == c.acls && d.comments == c.comments && d.nextOid == c.nextOid
        && (if name in names then name !in d.roles else SameRole(c, d, name))
      case CommentOnRole(commented, comment) =>
        && d.acls == c.acls && d.roles == c.roles && d.nextOid == c.nextOid
        && (CommentOn(d, commented) == comment) && (name != commented ==> CommentOn(d, name) == CommentOn(c, name))
      case TakeOid => d == c.(nextOid := c.nextOid + 1)
      case _ => d.roles == c.roles && d.comments == c.comments && d.nextOid == c.nextOid
  {
  }

  predicate SameRole(c: Catalog, d: Catalog, name: string)
  {
    (name in d.roles <==> name in c.roles) && (name in c.roles ==> d.roles[name] == c.roles[name])
  }

  function CommentOn(c: Catalog, name: string): Option<string>
  {
    if name in c.comments then Some(c.comments[name]) else None
  }

  /** A role can be created under any free name but public and dropped again at once; only the OID is
      spent.  Under the name public it can be dropped exactly when PUBLIC holds nothing. */
  lemma CreateThenDrop(c: Catalog, name: string, login: bool)
    requires Inv(c) && !RoleExists(c, name) && c.nextOid < U32_MAX
    ensures var d := Step(c, CreateRole(name, login));
      Step(d, DropRole([name], false)) ==
        if name != PUBLIC || NotAGrantee(c, PUBLIC) then c.(nextOid := c.nextOid + 1) else d
  {
    var d := Step(c, CreateRole(name, login));
    var drop := DropRole([name], false);
    assert [name][0] == name;
    assert HasDependencies(d, name) <==> exists o :: o in c.acls && name in c.acls[o];
    if name != PUBLIC {
      forall o | o in c.acls ensures name !in c.acls[o] { assert name in c.acls[o] ==> GranteeExists(c, name); }
    }
    if NotAGrantee(c, name) {
      assert Accepts(d, drop);
      assert d.roles - {name} == c.roles;
      assert (set n | n in [name]) == {name};
    } else {
      assert !CanDrop(d, [name], false);
    }
  }

  /** A rename moves the role, its comment and its privileges to the new name; every other role and
      comment stays. */
  lemma RenameMoves(c: Catalog, from: string, to: string, name: string)
    requires Inv(c) && CanRename(c, from, to)
    ensures var d := Step(c, RenameRole(from, to));
      && from !in d.roles && to in d.roles && d.roles[to] == c.roles[from]
      && CommentOn(d, to) == CommentOn(c, from) && CommentOn(d, from) == None
      && (name != from && name != to ==> SameRole(c, d, name) && CommentOn(d, name) == CommentOn(c, name))
      && d.nextOid == c.nextOid && d.acls.Keys == c.acls.Keys
  {
  }

  // ---------------------------------------------------------------- renaming

  /** No object grants anything to this name. */
  ghost predicate NotAGrantee(c: Catalog, name: string)
  {
    forall o :: o in c.acls ==> name !in c.acls[o]
  }

  /** A free name can only be a grantee already if it is "public". */
  lemma OnlyPublicIsInTheWay(c: Catalog, from: string, to: string)
    requires Inv(c) && CanRename(c, from, to) && to != PUBLIC
    ensures NotAGrantee(c, to)
  {
    forall o | o in c.acls ensures to !in c.acls[o] {
      assert to in c.acls[o] ==> GranteeExists(c, to);
    }
  }

  /** A rename keeps every role's OID-based privileges on every object and leaves every other grantee
      alone, provided the new name is not already a grantee. */
  lemma RenameKeepsPrivileges(c: Catalog, from: string, to: string, o: Object)
    requires Inv(c) && CanRename(c, from, to) && NotAGrantee(c, to) && o in c.acls
    ensures var d := Renamed(c, from, to);
      && (forall m, n :: m in c.roles && n in d.roles && c.roles[m].oid == d.roles[n].oid ==>
            PrivilegesOf(d.acls[o], n) == PrivilegesOf(c.acls[o], m) && (n in d.acls[o] <==> m in c.acls[o]))
      && (forall g :: g != from && g != to ==>
            (g in d.acls[o] <==> g in c.acls[o]) && PrivilegesOf(d.acls[o], g) == PrivilegesOf(c.acls[o], g))
  {
    var d := Renamed(c, from, to);
    forall m, n | m in c.roles && n in d.roles && c.roles[m].oid == d.roles[n].oid
      ensures m == if n == to then from else n
    {
      if n == to { assert d.roles[n] == c.roles[from]; } else { assert d.roles[n] == c.roles[n]; }
    }
  }

  /** Renaming there and back restores the catalog exactly when the new name was no grantee before. */
  lemma RenameBackRestoresIff(c: Catalog, from: string, to: string)
    requires Inv(c) && CanRename(c, from, to)
    ensures CanRename(Renamed(c, from, to), to, from)
    ensures Renamed(Renamed(c, from, to), to, from) == c <==> NotAGrantee(c, to)
  {
    hide Moved;
    var d := Renamed(c, from, to);
    var e := Renamed(d, to, from);
    assert e.roles == c.roles && e.comments == c.comments;
    forall o | o in c.acls ensures e.acls[o] == c.acls[o] <==> to !in c.acls[o] {
      MoveBackRestoresIff(c.acls[o], from, to);
    }
    if NotAGrantee(c, to) { assert e.acls == c.acls; }
  }

  lemma MoveBackRestoresIff(acl: Acl, from: string, to: string)
    requires from != to
    ensures Moved(Moved(acl, from, to), to, from) == acl <==> to !in acl
  {
    var back := Moved(Moved(acl, from, to), to, from);
    if to in acl {
      assert to !in back;
    } else {
      assert back == acl;
    }
  }

  /** Renaming a role to "public" hands its privileges to everyone and destroys what PUBLIC had. */
  lemma RenameToPublicOverwrites(o: Object)
    ensures var c := Catalog(map["app" := Role(7, true)], map[], map[o := map["app" := {1}, PUBLIC := {2}]], 8);
      Inv(c) && CanRename(c, "app", PUBLIC) && Renamed(c, "app", PUBLIC).acls[o] == map[PUBLIC := {1}]
  {
  }

  // ---------------------------------------------------------------- granting

  /** Revoking what was granted restores the list exactly when the grant was news and no entry was bare. */
  lemma RevokeUndoesGrantIff(acl: Acl, grantee: string, privileges: seq<Privilege>)
    ensures Revoked(Granted(acl, grantee, privileges), grantee, privileges) == acl <==>
      PrivilegesOf(acl, grantee) !! SetOf(privileges) && !(grantee in acl && acl[grantee] == {})
  {
    var had, given := PrivilegesOf(acl, grantee), SetOf(privileges);
    var granted := Granted(acl, grantee, privileges);
    var back := Revoked(granted, grantee, privileges);
    assert granted[grantee] - given == had - given;
    if had !! given {
      assert had - given == had;
      if had == {} { assert back == granted - {grantee}; }
      if grantee !in acl { assert granted - {grantee} == acl; } else if had != {} { assert back == acl; }
    } else {
      assert had - given != had;
    }
  }

  // ---------------------------------------------------------------- the statements as executed

  class RoleCatalog {
    var roles: map<string, Role>
    var comments: map<string, string>
    var acls: map<Object, Acl>
    var nextOid: nat

    function View(): Catalog
      reads this
    {
      Catalog(roles, comments, acls, nextOid)
    }

    method ApplyCreateRole(name: string, login: bool) returns (ok: bool)
      modifies this
      ensures ok <==> Accepts(old(View()), CreateRole(name, login))
      ensures View() == Step(old(View()), CreateRole(name, login))
    {
      if name == POSTGRES || name in roles { return false; }
      var oid := nextOid;
      if nextOid >= U32_MAX { return false; }
      nextOid := nextOid + 1;
      roles := roles[name := Role(oid, login)];
      ok := true;
    }

    /** Every name is checked before any role is removed. */
    method ApplyDropRole(names: seq<string>, ifExists: bool) returns (ok: bool)
      modifies this`roles
      ensures ok <==> Accepts(old(View()), DropRole(names, ifExists))
      ensures View() == Step(old(View()), DropRole(names, ifExists))
    {
      var seen: set<string> := {};
      for i := 0 to |names|
        invariant seen == set n | n in names[..i]
        invariant CanDrop(View(), names[..i], ifExists)
        invariant View() == old(View())
      {
        assert names[..i + 1] == names[..i] + [names[i]];
        var bad := names[i] in seen || names[i] == POSTGRES || (!ifExists && names[i] !in roles)
                   || (names[i] in roles && HasDependencies(View(), names[i]));
        if bad {
          RefusedByOne(View(), names, ifExists, i);
          return false;
        }
        seen := seen + {names[i]};
      }
      assert names[..|names|] == names;
      ghost var before := roles;
      for i := 0 to |names|
        invariant roles == before - set n | n in names[..i]
        invariant View() == old(View()).(roles := roles)
      {
        assert names[..i + 1] == names[..i] + [names[i]];
        roles := roles - {names[i]};
      }
      ok := true;
    }

    method ApplyRenameRole(from: string, to: string) returns (ok: bool)
      modifies this
      ensures ok <==> Accepts(old(View()), RenameRole(from, to))
      ensures View() == Step(old(View()), RenameRole(from, to))
    {
      if from == POSTGRES || from !in roles { return false; }
      if to == POSTGRES || to in roles { return false; }
      var role := roles[from];
      roles := (roles - {from})[to := role];
      if from in comments { comments := (comments - {from})[to := comments[from]]; }
      acls := map o | o in acls :: Moved(acls[o], from, to);
      ok := true;
    }

    /** The bootstrap role can be commented on too; no comment removes the one there is. */
    method ApplyCommentOnRole(name: string, comment: Option<string>) returns (ok: bool)
      modifies this`comments
      ensures ok <==> Accepts(old(View()), CommentOnRole(name, comment))
      ensures View() == Step(old(View()), CommentOnRole(name, comment))
    {
      if !RoleExists(View(), name) { return false; }
      comments := if comment.Some? then comments[name := comment.value] else comments - {name};
      ok := true;
    }

    method ApplyGrant(o: Object, keyword: Keyword, grantee: string, privileges: seq<Privilege>) returns (ok: bool)
      modifies this`acls
      ensures ok <==> Accepts(old(View()), Grant(o, keyword, grantee, privileges))
      ensures View() == Step(old(View()), Grant(o, keyword, grantee, privileges))
    {
      if o !in acls || !KeywordFits(keyword, o) || !GranteeExists(View(), grantee) { return false; }
      var entry := PrivilegesOf(acls[o], grantee);
      for k := 0 to |privileges|
        invariant entry == PrivilegesOf(acls[o], grantee) + SetOf(privileges[..k])
      {
        assert privileges[..k + 1] == privileges[..k] + [privileges[k]];
        entry := entry + {privileges[k]};
      }
      assert privileges[..|privileges|] == privileges;
      acls := acls[o := acls[o][grantee := entry]];
      ok := true;
    }

    method ApplyRevoke(o: Object, keyword: Keyword, grantee: string, privileges: seq<Privilege>) returns (ok: bool)
      modifies this`acls
      ensures ok <==> Accepts(old(View()), Revoke(o, keyword, grantee, privileges))
      ensures View() == Step(old(View()), Revoke(o, keyword, grantee, privileges))
    {
      if o !in acls || !KeywordFits(keyword, o) || !GranteeExists(View(), grantee) { return false; }
      ok := true;
      if grantee !in acls[o] {
        assert acls[o := acls[o]] == acls;
        return;
      }
      var entry := acls[o][grantee];
      for k := 0 to |privileges|
        invariant entry == acls[o][grantee] - SetOf(privileges[..k])
      {
        assert privileges[..k + 1] == privileges[..k] + [privileges[k]];
        entry := entry - {privileges[k]};
      }
      assert privileges[..|privileges|] == privileges;
      acls := acls[o := if entry == {} then acls[o] - {grantee} else acls[o][grantee := entry]];
    }
  }

  lemma RefusedByOne(c: Catalog, names: seq<string>, ifExists: bool, i: nat)
    requires i < |names|
    requires names[i] in names[..i] || names[i] == POSTGRES || (!ifExists && names[i] !in c.roles)
          || (names[i] in c.roles && HasDependencies(c, names[i]))
    ensures !CanDrop(c, names, ifExists)
  {
    if names[i] in names[..i] {
      var j :| 0 <= j < i && names[..i][j] == names[i];
      assert names[j] == names[i];
    }
  }
}
