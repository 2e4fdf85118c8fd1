// Contexts and their permissions: sc_memory_context_manager.c and sc_memory_context_permissions.c.
module Permissions {
  import opened ScTypes
  import opened ScGraph
  import opened PermissionLog

  const MAX_COUNT: nat := 0xFFFFFFFF

  // A hash table from structures to masks. A user's table is shared by the manager and, while the
  // user has a context, by the context.
  class PermissionTable {
    var masks: Masks

    constructor ()
      ensures masks == map[]
    {
      masks := map[];
    }
  }

  class Context {
    const userAddr: Addr
    const isSystem: bool
    var refCount: nat
    var globalPermissions: Mask
    var localPermissions: PermissionTable?

    constructor (userAddr: Addr, isSystem: bool, globalPermissions: Mask, localPermissions: PermissionTable?)
      ensures this.userAddr == userAddr && this.isSystem == isSystem && refCount == 0
      ensures this.globalPermissions == globalPermissions && this.localPermissions == localPermissions
    {
      this.userAddr, this.isSystem := userAddr, isSystem;
      this.globalPermissions, this.localPermissions := globalPermissions, localPermissions;
      refCount := 0;
    }
  }

  class ContextManager {
    var contexts: map<Addr, Context>
    var userLocal: map<Addr, PermissionTable>
    var userGlobal: Masks
    // All grants and revocations of local permissions so far.
    ghost var log: seq<Op>

    ghost function Tables(): set<PermissionTable>
      reads this
    {
      userLocal.Values
    }

    ghost function Contexts(): set<Context>
      reads this
    {
      contexts.Values
    }

    // Every user with permissions has a table of their own.
    ghost predicate OwnTables()
      reads this
    {
      forall u <- userLocal, v <- userLocal :: userLocal[u] == userLocal[v] ==> u == v
    }

    // A registered context holds the very table that is stored for its user, or none when none is.
    ghost predicate NeverStale()
      reads this, Contexts()
    {
      forall u <- contexts ::
        && contexts[u].userAddr == u
        && contexts[u].localPermissions == if u in userLocal then userLocal[u] else null
    }

    ghost function Local(): View
      reads this, Tables()
    {
      map u <- userLocal :: userLocal[u].masks
    }

    ghost predicate Valid()
      reads this, Contexts(), Tables()
    {
      OwnTables() && NeverStale() && EMPTY !in contexts && Local() == Replay(log)
    }

    constructor ()
      ensures Valid() && contexts == map[] && log == []
    {
      contexts, userLocal, userGlobal, log := map[], map[], map[], [];
    }

    // ---- Contexts ----

    // A guest, with a mask of their own, stands in for the empty user; `guest` is the node made for
    // them.
    method NewContext(user: Addr, guest: Addr) returns (ctx: Context)
      requires Valid() && user !in contexts
      requires guest != EMPTY && guest !in contexts
      modifies this`contexts, this`userGlobal
      ensures Valid() && fresh(ctx) && ctx.refCount == 0 && Local() == old(Local())
      ensures ctx.userAddr == (if user == EMPTY then guest else user)
      ensures contexts == old(contexts)[ctx.userAddr := ctx]
      ensures ctx.globalPermissions == MaskOf(userGlobal, ctx.userAddr)
      ensures userGlobal ==
              if user == EMPTY then old(userGlobal)[guest := MaskOf(old(userGlobal), guest) | AUTHENTICATED]
                            else old(userGlobal)
    {
      var owner := user;
      if user == EMPTY {
        owner := guest;
        userGlobal := userGlobal[guest := MaskOf(userGlobal, guest) | AUTHENTICATED];
      }
      var table: PermissionTable? := if owner in userLocal then userLocal[owner] else null;
      ctx := new Context(owner, false, MaskOf(userGlobal, owner), table);
      contexts := contexts[owner := ctx];
    }

    method GetContext(user: Addr) returns (ctx: Context?)
      ensures ctx == if user in contexts then contexts[user] else null
    {
      return if user in contexts then contexts[user] else null;
    }

    method ResolveContext(user: Addr, guest: Addr) returns (ctx: Context)
      requires Valid() && guest != EMPTY && guest !in contexts
      modifies this`contexts, this`userGlobal, Contexts()`refCount
      ensures Valid() && Local() == old(Local()) && ctx in Contexts()
      ensures user in old(contexts) ==> contexts == old(contexts) && ctx == contexts[user]
      ensures user in old(contexts) ==> ctx.refCount == (old(contexts[user].refCount) + 1) % (MAX_COUNT + 1)
      ensures user !in old(contexts) ==>
                && fresh(ctx) && ctx.refCount == 1
                && contexts == old(contexts)[if user == EMPTY then guest else user := ctx]
    {
      var found := GetContext(user);
      if found == null {
        ctx := NewContext(user, guest);
      } else {
        ctx := found;
      }
      Retain(ctx);
    }

    method Retain(ctx: Context)
      requires Valid() && ctx in Contexts()
      modifies ctx`refCount
      ensures Valid() && Local() == old(Local())
      ensures ctx.refCount == (old(ctx.refCount) + 1) % (MAX_COUNT + 1)
    {
      ctx.refCount := (ctx.refCount + 1) % (MAX_COUNT + 1);
    }

    // The count is an unsigned number of 32 bits, so that a context nobody resolved is kept.
    method FreeContext(ctx: Context)
      requires Valid() && ctx in Contexts()
      modifies this`contexts, ctx`refCount
      ensures Valid() && Local() == old(Local())
      ensures ctx.refCount == if old(ctx.refCount) == 0 then MAX_COUNT else old(ctx.refCount) - 1
      ensures contexts == if ctx.refCount > 0 then old(contexts) else old(contexts) - {ctx.userAddr}
    {
      ctx.refCount := if ctx.refCount == 0 then MAX_COUNT else ctx.refCount - 1;
      if ctx.refCount > 0 {
        return;
      }
      contexts := contexts - {ctx.userAddr};
    }

    // ---- Local permissions ----

    method AddUserLocalPermissions(user: Addr, adding: Mask, structure: Addr)
      requires OwnTables() && Local() == Replay(log)
      modifies this`userLocal, this`log, Tables()
      ensures OwnTables() && log == old(log) + [Grant(user, structure, adding)]
      ensures Local() == Replay(log)
      ensures user in userLocal && (user in old(userLocal) ==> userLocal == old(userLocal))
      ensures user !in old(userLocal) ==> fresh(userLocal[user]) && userLocal == old(userLocal)[user := userLocal[user]]
    {
      ghost var before := Local();
      Replayed(log, Grant(user, structure, adding));
      log := log + [Grant(user, structure, adding)];
      if user !in userLocal {
        var created := new PermissionTable();
        userLocal := userLocal[user := created];
      }
      var table := userLocal[user];
      table.masks := MasksAfter(table.masks, Grant(user, structure, adding));
      assert Local() == Apply(before, Grant(user, structure, adding));
    }

    method RemoveUserLocalPermissions(user: Addr, removing: Mask, structure: Addr)
      requires OwnTables() && Local() == Replay(log)
      modifies this`log, Tables()
      ensures log == old(log) + [Revoke(user, structure, removing)]
      ensures Local() == Replay(log)
    {
      ghost var before := Local();
      Replayed(log, Revoke(user, structure, removing));
      log := log + [Revoke(user, structure, removing)];
      if user in userLocal {
        var table := userLocal[user];
        table.masks := MasksAfter(table.masks, Revoke(user, structure, removing));
      }
      assert Local() == Apply(before, Revoke(user, structure, removing));
    }

    // Only the context of this user may hold no table while one is stored.
    ghost predicate StaleAtMost(user: Addr)
      reads this, Contexts()
    {
      forall u <- contexts ::
        && contexts[u].userAddr == u
        && (contexts[u].localPermissions == (if u in userLocal then userLocal[u] else null)
            || (u == user && contexts[u].localPermissions == null))
    }

    method AddLocalPermissions(user: Addr, adding: Mask, structure: Addr)
      requires Valid()
      modifies this`userLocal, this`log, Tables(), Contexts()`localPermissions
      ensures Valid() && log == old(log) + [Grant(user, structure, adding)]
      ensures fresh(Tables() - old(Tables()))
      ensures forall other <- old(userLocal) :: other in userLocal && userLocal[other] == old(userLocal)[other]
    {
      AddUserLocalPermissions(user, adding, structure);
      ShareTable(user);
    }

    // A registered context takes over the table when it has none yet.
    method ShareTable(user: Addr)
      requires StaleAtMost(user) && user in userLocal
      modifies Contexts()`localPermissions
      ensures NeverStale()
    {
      if user in contexts {
        var ctx := contexts[user];
        if ctx.localPermissions == null {
          ctx.localPermissions := userLocal[user];
        }
      }
    }

    method RemoveLocalPermissions(user: Addr, removing: Mask, structure: Addr)
      requires Valid()
      modifies this`log, Tables()
      ensures Valid() && log == old(log) + [Revoke(user, structure, removing)]
    {
      RemoveUserLocalPermissions(user, removing, structure);
    }

    // ---- Global permissions ----

    // A registered context has a mask of its own; the stored one is then left as it was.
    method ChangeGlobalPermissions(user: Addr, grant: bool, mask: Mask)
      requires Valid()
      modifies this`userGlobal, (if user in contexts then {contexts[user]} else {})`globalPermissions
      ensures Valid() && Local() == old(Local())
      ensures user in contexts ==> userGlobal == old(userGlobal)
      ensures user in contexts ==>
                contexts[user].globalPermissions == Changed(old(contexts[user].globalPermissions), grant, mask)
      ensures user !in contexts ==>
                userGlobal == old(userGlobal)[user := Changed(MaskOf(old(userGlobal), user), grant, mask)]
    {
      if user !in contexts {
        userGlobal := userGlobal[user := Changed(MaskOf(userGlobal, user), grant, mask)];
      } else {
        var ctx := contexts[user];
        ctx.globalPermissions := Changed(ctx.globalPermissions, grant, mask);
      }
    }

    // ---- Sets of users ----

    // A user joins (or leaves) a set: gets (or loses) what the set's own tables hold.
    method OnUsersSetChanged(usersSet: Addr, user: Addr, joins: bool)
      requires Valid() && user != usersSet
      modifies this`userLocal, this`userGlobal, this`log, Tables(), Contexts()`localPermissions
      modifies (if user in contexts then {contexts[user]} else {})`globalPermissions
      ensures Valid() && fresh(Tables() - old(Tables()))
      ensures Merged(old(Local()), Local(), usersSet, user, joins)
      ensures user in contexts ==> userGlobal == old(userGlobal)
      ensures user in contexts ==>
                contexts[user].globalPermissions
                == Changed(old(contexts[user].globalPermissions), joins, MaskOf(old(userGlobal), usersSet))
      ensures user !in contexts ==>
                userGlobal == old(userGlobal)[
                  user := Changed(MaskOf(old(userGlobal), user), joins, MaskOf(old(userGlobal), usersSet))]
    {
      ghost var before := Local();
      ChangeGlobalPermissions(user, joins, MaskOf(userGlobal, usersSet));
      if usersSet in userLocal {
        ChangeAllLocalPermissions(usersSet, user, joins);
      } else {
        Handled(before, before, usersSet, user, joins);
      }
    }

    // A change for a set of users: for its members, in any order, and for the set itself.
    method ChangeUsersSetPermissions(members: set<Addr>, usersSet: Addr, grant: bool, mask: Mask, structure: Addr)
      requires Valid()
      modifies this`userLocal, this`log, Tables(), Contexts()`localPermissions
      ensures Valid() && fresh(Tables() - old(Tables()))
      ensures ChangedFor(old(Local()), Local(), members + {usersSet}, grant, mask, structure)
    {
      ghost var before, done := Local(), {};
      var left := members;
      while left != {}
        invariant Valid() && fresh(Tables() - old(Tables())) && left + done == members
        invariant ChangedFor(before, Replay(log), done, grant, mask, structure)
        decreases left
      {
        var user :| user in left;
        left := left - {user};
        ChangedForOne(before, Replay(log), done, user, grant, mask, structure);
        Replayed(log, ChangeOf(grant, user, structure, mask));
        done := done + {user};
        ChangeLocalPermissions(user, grant, mask, structure);
      }
      assert done == members;
      ChangedForOne(before, Replay(log), members, usersSet, grant, mask, structure);
      Replayed(log, ChangeOf(grant, usersSet, structure, mask));
      ChangeLocalPermissions(usersSet, grant, mask, structure);
    }

    method ChangeLocalPermissions(user: Addr, grant: bool, mask: Mask, structure: Addr)
      requires Valid()
      modifies this`userLocal, this`log, Tables(), Contexts()`localPermissions
      ensures Valid() && fresh(Tables() - old(Tables()))
      ensures log == old(log) + [ChangeOf(grant, user, structure, mask)]
      ensures forall other <- old(userLocal) :: other in userLocal && userLocal[other] == old(userLocal)[other]
    {
      if grant {
        AddLocalPermissions(user, mask, structure);
      } else {
        RemoveLocalPermissions(user, mask, structure);
      }
    }

    // The loop over the table of the set, in some order.
    method ChangeAllLocalPermissions(usersSet: Addr, user: Addr, joins: bool)
      requires Valid() && user != usersSet && usersSet in userLocal
      modifies this`userLocal, this`log, Tables(), Contexts()`localPermissions
      ensures Valid() && fresh(Tables() - old(Tables()))
      ensures Merged(old(Local()), Local(), usersSet, user, joins)
    {
      ghost var before := Local();
      var table := userLocal[usersSet];
      var left := table.masks.Keys;
      while left != {}
        invariant Valid() && fresh(Tables() - old(Tables()))
        invariant usersSet in userLocal && userLocal[usersSet] == table && left <= before[usersSet].Keys
        invariant Handling(before, Replay(log), usersSet, user, joins, left)
        decreases left
      {
        var structure :| structure in left;
        left := left - {structure};
        ChangeOneOf(before, usersSet, user, joins, table, structure, left);
      }
      Handled(before, Replay(log), usersSet, user, joins);
    }

    // The body of that loop.
    method ChangeOneOf(
        ghost before: View, usersSet: Addr, user: Addr, joins: bool, table: PermissionTable, structure: Addr,
        ghost left: set<Addr>)
      requires Valid() && user != usersSet && usersSet in userLocal && userLocal[usersSet] == table
      requires usersSet in before && structure in before[usersSet] && structure !in left
      requires Handling(before, Replay(log), usersSet, user, joins, left + {structure})
      modifies this`userLocal, this`log, Tables(), Contexts()`localPermissions
      ensures Valid() && fresh(Tables() - old(Tables()))
      ensures usersSet in userLocal && userLocal[usersSet] == table
      ensures Handling(before, Replay(log), usersSet, user, joins, left)
    {
      assert table.masks == MasksOf(Replay(log), usersSet) == before[usersSet];
      HandledOne(before, Replay(log), usersSet, user, joins, left, structure);
      Replayed(log, ChangeOf(joins, user, structure, table.masks[structure]));
      ChangeLocalPermissions(user, joins, table.masks[structure], structure);
    }
  }

  // The user's masks gained (or lost) the bits of the set's; nobody else's changed.
  ghost predicate Merged(before: View, view: View, usersSet: Addr, user: Addr, joins: bool) {
    && (forall structure ::
          Permitted(view, user, structure) ==
          Changed(Permitted(before, user, structure), joins, Permitted(before, usersSet, structure)))
    && forall other :: other != user ==> MasksOf(view, other) == MasksOf(before, other)
  }

  ghost predicate ChangedFor(before: View, view: View, users: set<Addr>, grant: bool, mask: Mask, structure: Addr) {
    forall u: Addr, s: Addr ::
      Permitted(view, u, s) ==
      if u in users && s == structure then Changed(Permitted(before, u, s), grant, mask) else Permitted(before, u, s)
  }

  lemma ChangedTwice(was: Mask, grant: bool, mask: Mask)
    ensures Changed(Changed(was, grant, mask), grant, mask) == Changed(was, grant, mask)
  {
    if grant {
      GrantedTwice(was, mask);
    } else {
      RevokedTwice(was, mask);
    }
  }

  lemma GrantedTwice(was: Mask, mask: Mask)
    ensures Changed(Changed(was, true, mask), true, mask) == Changed(was, true, mask)
  {
    GrantTwice(was, mask);
  }

  lemma RevokedTwice(was: Mask, mask: Mask)
    ensures Changed(Changed(was, false, mask), false, mask) == Changed(was, false, mask)
  {
    RevokeTwice(was, mask);
  }

  lemma GrantTwice(was: Mask, mask: Mask)
    ensures (was | mask) | mask == was | mask
  {
  }

  lemma RevokeTwice(was: Mask, mask: Mask)
    ensures (was & !mask) & !mask == was & !mask
  {
  }

  lemma ChangedForOne(
      before: View, view: View, done: set<Addr>, user: Addr, grant: bool, mask: Mask, structure: Addr)
    requires ChangedFor(before, view, done, grant, mask, structure)
    ensures ChangedFor(
              before, Apply(view, ChangeOf(grant, user, structure, mask)), done + {user}, grant, mask, structure)
  {
    var op := ChangeOf(grant, user, structure, mask);
    forall u: Addr, s: Addr
      ensures Permitted(Apply(view, op), u, s) ==
              if u in done + {user} && s == structure then Changed(Permitted(before, u, s), grant, mask)
              else Permitted(before, u, s)
    {
      PermittedAfter(view, op, u, s);
      ChangedTwice(Permitted(before, u, s), grant, mask);
    }
  }

  // What a registered context sees is the outcome of all grants and revocations for its user so far,
  // bit by bit, whenever the context was created.
  lemma ContextSeesEveryChange(manager: ContextManager, user: Addr, structure: Addr, bit: Mask)
    requires manager.Valid() && user in manager.contexts && IsBit(bit)
    ensures
      var table := manager.contexts[user].localPermissions;
      LastIsGrant(manager.log, user, structure, bit) <==>
      table != null && MaskOf(table.masks, structure) & bit != 0
  {
    BitIsLastOperation(manager.log, user, structure, bit);
    assert MasksOf(manager.Local(), user) == MasksOf(Replay(manager.log), user);
    assert (0 as Mask) & bit == 0;
  }

  // A grant or a revocation of global permissions.
  datatype Change = Change(grant: bool, mask: Mask)

  function AfterAll(was: Mask, changes: seq<Change>): Mask {
    if changes == [] then was
    else
      var last := changes[|changes| - 1];
      Changed(AfterAll(was, changes[..|changes| - 1]), last.grant, last.mask)
  }

  // Global permissions are not shared in the same way. Whatever changes for a user while a context is
  // registered goes to the mask of the context and is gone when that context is freed; local changes
  // stay.
  method GlobalChangesAreForgotten(manager: ContextManager, user: Addr, guest: Addr, changes: seq<Change>)
    returns (seen: Mask, ctx: Context)
    requires manager.Valid() && user != EMPTY && user !in manager.contexts
    requires guest != EMPTY && guest !in manager.contexts
    modifies manager
    ensures manager.Valid() && fresh(ctx) && manager.Local() == old(manager.Local())
    ensures manager.contexts == old(manager.contexts)[user := ctx]
    ensures seen == AfterAll(MaskOf(old(manager.userGlobal), user), changes)
    ensures ctx.globalPermissions == MaskOf(old(manager.userGlobal), user)
  {
    seen := ChangeWhileRegistered(manager, user, guest, changes);
    ctx := manager.NewContext(user, guest);
  }

  // All of them reach the mask of the context, one after another.
  method ChangeInTurn(manager: ContextManager, ctx: Context, changes: seq<Change>)
    requires manager.Valid() && ctx in manager.Contexts()
    modifies manager`userGlobal, ctx`globalPermissions
    ensures manager.Valid() && manager.Local() == old(manager.Local()) && manager.userGlobal == old(manager.userGlobal)
    ensures ctx.globalPermissions == AfterAll(old(ctx.globalPermissions), changes)
  {
    ghost var was := ctx.globalPermissions;
    var i := 0;
    while i < |changes|
      invariant 0 <= i <= |changes| && manager.Valid() && manager.Local() == old(manager.Local())
      invariant manager.userGlobal == old(manager.userGlobal)
      invariant ctx.globalPermissions == AfterAll(was, changes[..i])
    {
      assert changes[..i + 1][..i] == changes[..i];
      manager.ChangeGlobalPermissions(ctx.userAddr, changes[i].grant, changes[i].mask);
      i := i + 1;
    }
    assert changes[..i] == changes;
  }

  method ChangeWhileRegistered(manager: ContextManager, user: Addr, guest: Addr, changes: seq<Change>)
    returns (seen: Mask)
    requires manager.Valid() && user != EMPTY && user !in manager.contexts
    requires guest != EMPTY && guest !in manager.contexts
    modifies manager
    ensures manager.Valid() && manager.Local() == old(manager.Local())
    ensures manager.contexts == old(manager.contexts) && manager.userGlobal == old(manager.userGlobal)
    ensures seen == AfterAll(MaskOf(old(manager.userGlobal), user), changes)
  {
    var ctx := manager.NewContext(user, guest);
    manager.Retain(ctx);
    ChangeInTurn(manager, ctx, changes);
    seen := ctx.globalPermissions;
    manager.FreeContext(ctx);
  }

  // ---- The access decision ----

  datatype LocalResult = LocalOk | LocalNo | LocalUnknown

  // A structure that contains the element, as the connector `x` says.
  predicate Contains(g: Graph, x: Addr, element: Addr) {
    && x in g && HasSubtype(g[x].ty, CONST_POS_ARC) && g[x].end == element
    && g[x].begin in g && HasSubtype(g[g[x].begin].ty, CONST_NODE_STRUCTURE)
  }

  function StructuresOf(g: Graph, element: Addr): set<Addr> {
    set x <- g | Contains(g, x, element) :: g[x].begin
  }

  // `_sc_memory_context_check_system`
  predicate IsSystem(userMode: bool, ctx: Context?) {
    !userMode || ctx == null || ctx.isSystem
  }

  // A permitted structure that holds the element by a constant positive arc.
  ghost predicate HeldBy(g: Graph, permitted: set<Addr>, element: Addr, structure: Addr) {
    && structure in permitted && structure in g && HasSubtype(g[structure].ty, CONST_NODE_STRUCTURE)
    && exists x <- g :: g[x].begin == structure && g[x].end == element && HasSubtype(g[x].ty, CONST_POS_ARC)
  }

  ghost predicate HeldByNone(g: Graph, permitted: set<Addr>, element: Addr) {
    forall s :: !HeldBy(g, permitted, element, s)
  }

  // Some permitted structure around the element gives all the bits.
  ghost predicate GivenLocally(masks: Masks, required: Mask, element: Addr, g: Graph, permitted: set<Addr>) {
    exists s :: HeldBy(g, permitted, element, s) && GivesAll(if s in masks then masks[s] else 0, required)
  }

  lemma StructuresAre(g: Graph, permitted: set<Addr>, element: Addr, s: Addr)
    ensures s in StructuresOf(g, element) * permitted <==> HeldBy(g, permitted, element, s)
  {
    if HeldBy(g, permitted, element, s) {
      var x :| x in g && g[x].begin == s && g[x].end == element && HasSubtype(g[x].ty, CONST_POS_ARC);
      assert Contains(g, x, element);
    }
  }

  lemma LocallyIs(masks: Masks, required: Mask, element: Addr, g: Graph, permitted: set<Addr>)
    ensures StructuresOf(g, element) * permitted == {} <==> HeldByNone(g, permitted, element)
    ensures (exists s <- StructuresOf(g, element) * permitted :: HasSubset(MaskOf(masks, s), required)) <==>
            GivenLocally(masks, required, element, g, permitted)
  {
    forall s ensures s in StructuresOf(g, element) * permitted <==> HeldBy(g, permitted, element, s) {
      StructuresAre(g, permitted, element, s);
    }
    forall s ensures HasSubset(MaskOf(masks, s), required) <==> GivesAll(MaskOf(masks, s), required) {
      SubsetIsBitwise(MaskOf(masks, s), required);
    }
  }

  // The loop over the structures around the element, in any order; it stops at the first that
  // permits.
  method VisitStructures(required: Mask, element: Addr, g: Graph, permitted: set<Addr>, masks: Masks)
    returns (result: LocalResult)
    ensures result == LocalUnknown <==> StructuresOf(g, element) * permitted == {}
    ensures result == LocalOk <==>
            exists s <- StructuresOf(g, element) * permitted :: HasSubset(MaskOf(masks, s), required)
  {
    result := LocalUnknown;
    var left := set x <- g | Contains(g, x, element);
    while result != LocalOk && left != {}
      invariant left <= set x <- g | Contains(g, x, element)
      invariant result == LocalUnknown ==>
                  forall x <- g :: Contains(g, x, element) && x !in left ==> g[x].begin !in permitted
      invariant result == LocalOk ==>
                  exists s <- StructuresOf(g, element) * permitted :: HasSubset(MaskOf(masks, s), required)
      invariant result == LocalNo ==> StructuresOf(g, element) * permitted != {}
      invariant result != LocalOk ==>
                  forall x <- g :: Contains(g, x, element) && x !in left ==>
                    g[x].begin !in permitted || !HasSubset(MaskOf(masks, g[x].begin), required)
      decreases left
    {
      var x :| x in left;
      left := left - {x};
      var structure := g[x].begin;
      if structure !in permitted {
        continue;
      }
      assert structure in StructuresOf(g, element) * permitted;
      result := if HasSubset(MaskOf(masks, structure), required) then LocalOk else LocalNo;
    }
  }

  // Permitted without more ado outside the user mode, and for contexts that are none or the system's.
  method CheckLocalPermissions(
      userMode: bool, ctx: Context?, required: Mask, element: Addr, g: Graph, permitted: set<Addr>)
    returns (result: LocalResult)
    ensures !userMode || ctx == null || ctx.isSystem ==> result == LocalOk
    ensures userMode && ctx != null && !ctx.isSystem ==>
              var table := ctx.localPermissions;
              && (result == LocalUnknown <==> table == null || HeldByNone(g, permitted, element))
              && (result == LocalOk <==> table != null && GivenLocally(table.masks, required, element, g, permitted))
  {
    if IsSystem(userMode, ctx) {
      return LocalOk;
    }
    var table := ctx.localPermissions;
    if table == null {
      return LocalUnknown;
    }
    result := VisitStructures(required, element, g, permitted, table.masks);
    LocallyIs(table.masks, required, element, g, permitted);
  }

  // Whether an action on an element is granted: by a permitted structure around it that gives all
  // the bits, or, where no permitted structure has a say, by the global mask.
  ghost predicate AccessRule(
      userMode: bool, ctx: Context?, required: Mask, element: Addr, g: Graph, permitted: set<Addr>)
    reads ctx, if ctx == null then null else ctx.localPermissions
  {
    !userMode || ctx == null || ctx.isSystem ||
    var table := ctx.localPermissions;
    if table == null || HeldByNone(g, permitted, element) then GivesAll(ctx.globalPermissions, required)
    else GivenLocally(table.masks, required, element, g, permitted)
  }

  method CheckLocalAndGlobalPermissions(
      userMode: bool, ctx: Context?, required: Mask, element: Addr, g: Graph, permitted: set<Addr>)
    returns (granted: bool)
    ensures granted <==> AccessRule(userMode, ctx, required, element, g, permitted)
  {
    var result := CheckLocalPermissions(userMode, ctx, required, element, g, permitted);
    granted := result == LocalOk
               || (result == LocalUnknown && (IsSystem(userMode, ctx) || HasSubset(ctx.globalPermissions, required)));
    if ctx != null {
      SubsetIsBitwise(ctx.globalPermissions, required);
    }
  }

  function ChangeOf(grant: bool, user: Addr, structure: Addr, mask: Mask): Op {
    if grant then Grant(user, structure, mask) else Revoke(user, structure, mask)
  }

  // While the structures of the set's table are gone through, with those in `left` still to come.
  ghost predicate Handling(before: View, view: View, usersSet: Addr, user: Addr, joins: bool, left: set<Addr>) {
    && (forall structure ::
          Permitted(view, user, structure) ==
          if structure in MasksOf(before, usersSet) && structure !in left
          then Changed(Permitted(before, user, structure), joins, Permitted(before, usersSet, structure))
          else Permitted(before, user, structure))
    && forall other :: other != user ==> MasksOf(view, other) == MasksOf(before, other)
  }

  lemma HandledOne(
      before: View, view: View, usersSet: Addr, user: Addr, joins: bool, left: set<Addr>, structure: Addr)
    requires user != usersSet && structure !in left && structure in MasksOf(before, usersSet)
    requires Handling(before, view, usersSet, user, joins, left + {structure})
    ensures Handling(
              before,
              Apply(view, ChangeOf(joins, user, structure, Permitted(before, usersSet, structure))),
              usersSet, user, joins, left)
  {
    var op := ChangeOf(joins, user, structure, Permitted(before, usersSet, structure));
    forall s
      ensures Permitted(Apply(view, op), user, s) ==
              if s == structure then MaskAfter(Permitted(view, user, s), op) else Permitted(view, user, s)
    {
      PermittedAfter(view, op, user, s);
    }
  }

  lemma GrantNothing(was: Mask)
    ensures was | 0 == was
  {
  }

  lemma RevokeNothing(was: Mask)
    ensures was & !0 == was
  {
  }

  lemma NoChange(was: Mask, joins: bool)
    ensures Changed(was, joins, 0) == was
  {
    if joins {
      GrantNothing(was);
    } else {
      RevokeNothing(was);
    }
  }

  lemma Handled(before: View, view: View, usersSet: Addr, user: Addr, joins: bool)
    requires Handling(before, view, usersSet, user, joins, {}) || (before == view && usersSet !in before)
    ensures Merged(before, view, usersSet, user, joins)
  {
    forall structure
      ensures Permitted(view, user, structure) ==
              Changed(Permitted(before, user, structure), joins, Permitted(before, usersSet, structure))
    {
      NoChange(Permitted(before, user, structure), joins);
    }
  }

  lemma Replayed(log: seq<Op>, op: Op)
    ensures Replay(log + [op]) == Apply(Replay(log), op)
  {
    assert (log + [op])[..|log|] == log;
  }
}
