/** The personal-account service: profile updates, the conversion of a
    personal account into a designer or an employer account, and the check
    that an id belongs to a personal account. The store is three tables held
    by a `Store` object; each write is specified by a function on the tables,
    and the properties of the workflows are lemmas about those functions. */
module PersonalService {
  import opened Text
  import opened Schema

  type LocationId = string
  type CategoryId = string

  /** One row of `designers`; `id` is the key the store assigned. */
  datatype DesignerRow = DesignerRow(id: int, userId: UserId, locationId: LocationId)

  /** One row of `designer_assigned_categories`. */
  datatype CategoryRow = CategoryRow(categoryId: CategoryId, designerId: int)

  /** The tables this service touches. */
  datatype Tables = Tables(users: seq<User>, designers: seq<DesignerRow>, assignments: seq<CategoryRow>)

  /** The tables after a call, and what the call hands back. */
  datatype After<T> = After(tables: Tables, outcome: Outcome<T>)

  // ---------------------------------------------------------------------------
  // Local validation guards (checked before any store access)
  // ---------------------------------------------------------------------------

  /** `updateProfile` refuses a blank user id and an empty or blank first or
      last name. */
  predicate RejectsProfile(userId: UserId, firstName: string, lastName: string) {
    IsBlank(userId) || |firstName| == 0 || |lastName| == 0 || IsBlank(firstName) || IsBlank(lastName)
  }

  /** `convertToDesigner` refuses a blank user or location id and an empty
      category list. */
  predicate RejectsDesigner(userId: UserId, locationId: LocationId, categories: seq<CategoryId>) {
    IsBlank(userId) || IsBlank(locationId) || |categories| == 0
  }

  /** `convertToEmployer` refuses a blank user id. */
  predicate RejectsEmployer(userId: UserId) {
    IsBlank(userId)
  }

  /** The emptiness tests in the profile guard add nothing: an empty name is
      already blank, so the guard rejects exactly when one of the three
      inputs is blank. */
  lemma ProfileGuardIsBlankTest(userId: UserId, firstName: string, lastName: string)
    ensures RejectsProfile(userId, firstName, lastName)
        <==> IsBlank(userId) || IsBlank(firstName) || IsBlank(lastName)
  {
    BlankIffAllWhitespace([]);
  }

  // ---------------------------------------------------------------------------
  // The single statements
  // ---------------------------------------------------------------------------

  /** `UPDATE users SET first_name, last_name, profile_picture, phone WHERE
      users.id = userId`. */
  function WithProfile(users: seq<User>, id: UserId, firstName: string, lastName: string,
                       picture: string, phone: string): (r: seq<User>)
    ensures |r| == |users|
    ensures forall i :: 0 <= i < |users| ==>
      r[i] == (if users[i].id == id
               then users[i].(firstName := firstName, lastName := lastName, profilePicture := picture, phone := phone)
               else users[i])
  {
    seq(|users|, i requires 0 <= i < |users| =>
      if users[i].id == id
      then users[i].(firstName := firstName, lastName := lastName, profilePicture := picture, phone := phone)
      else users[i])
  }

  /** The profile update touches exactly the four profile columns of the rows
      with that id: ids, e-mail addresses and roles are kept everywhere, and
      the rows with another id are kept whole. */
  lemma {:induction false} WithProfileEffect(users: seq<User>, id: UserId, firstName: string, lastName: string,
                                             picture: string, phone: string)
    ensures var r := WithProfile(users, id, firstName, lastName, picture, phone);
      && |r| == |users|
      && (forall i :: 0 <= i < |r| ==>
            r[i].id == users[i].id && r[i].email == users[i].email && r[i].role == users[i].role)
      && (forall i :: 0 <= i < |r| && r[i].id == id ==>
            r[i].firstName == firstName && r[i].lastName == lastName
            && r[i].profilePicture == picture && r[i].phone == phone)
      && (forall i :: 0 <= i < |r| && r[i].id != id ==> r[i] == users[i])
      && (forall role :: HasRole(r, id, role) <==> HasRole(users, id, role))
  {
    var r := WithProfile(users, id, firstName, lastName, picture, phone);
    forall role ensures HasRole(r, id, role) <==> HasRole(users, id, role) {
      if HasRole(r, id, role) {
        var v :| v in r && v.id == id && v.role == role;
        var i :| 0 <= i < |r| && r[i] == v;
        assert users[i] in users;
      }
      if HasRole(users, id, role) {
        var u :| u in users && u.id == id && u.role == role;
        var i :| 0 <= i < |users| && users[i] == u;
        assert r[i] in r;
      }
    }
  }

  /** What the category loop leaves behind: the rows it inserted, the ids
      the inserts returned, and whether a statement raised and ended it. */
  datatype AssignRun = AssignRun(rows: seq<CategoryRow>, ids: seq<CategoryId>, raised: bool)

  /** The loop of `assignCategoryForDesigner` over the first `|categories|`
      categories, given the store's reply to each insert: a row is inserted
      and its returned id collected for each `Row` reply, nothing for a
      `NoRow` reply, and a `Raises` reply ends the loop. */
  function Assign(categories: seq<CategoryId>, designerId: int, replies: seq<Reply<CategoryId>>): (run: AssignRun)
    requires |replies| == |categories|
    ensures |run.rows| == |run.ids| <= |categories|
    ensures forall j :: 0 <= j < |run.rows| ==>
      run.rows[j].designerId == designerId && run.rows[j].categoryId in categories
  {
    if categories == [] then AssignRun([], [], false)
    else
      var n := |categories| - 1;
      var prior := Assign(categories[..n], designerId, replies[..n]);
      if prior.raised then prior
      else match replies[n]
        case Raises => prior.(raised := true)
        case NoRow => prior
        case Row(id) =>
          AssignRun(prior.rows + [CategoryRow(categories[n], designerId)], prior.ids + [id], false)
  }

  /** One more category: the run over the first `i + 1` categories extends
      the run over the first `i` by the reply to insert `i`. */
  lemma AssignSnoc(categories: seq<CategoryId>, designerId: int, replies: seq<Reply<CategoryId>>, i: nat)
    requires |replies| == |categories| && i < |categories|
    ensures var prior := Assign(categories[..i], designerId, replies[..i]);
      Assign(categories[..i + 1], designerId, replies[..i + 1])
        == if prior.raised then prior
           else match replies[i]
             case Raises => prior.(raised := true)
             case NoRow => prior
             case Row(id) => AssignRun(prior.rows + [CategoryRow(categories[i], designerId)], prior.ids + [id], false)
  {
    var c, rs := categories[..i + 1], replies[..i + 1];
    assert c[..i] == categories[..i] && rs[..i] == replies[..i];
  }

  /** One `(category, designerId)` row per category, in list order. */
  function CategoryRows(categories: seq<CategoryId>, designerId: int): (rows: seq<CategoryRow>)
    ensures |rows| == |categories|
    ensures forall j :: 0 <= j < |rows| ==> rows[j] == CategoryRow(categories[j], designerId)
  {
    seq(|categories|, j requires 0 <= j < |categories| => CategoryRow(categories[j], designerId))
  }

  /** The values carried by replies that are all rows. */
  function RowValues<T>(replies: seq<Reply<T>>): (values: seq<T>)
    requires forall j :: 0 <= j < |replies| ==> replies[j].Row?
    ensures |values| == |replies|
    ensures forall j :: 0 <= j < |values| ==> values[j] == replies[j].value
  {
    seq(|replies|, j requires 0 <= j < |replies| => replies[j].value)
  }

  lemma CategoryRowsSnoc(categories: seq<CategoryId>, designerId: int)
    requires categories != []
    ensures CategoryRows(categories[..|categories| - 1], designerId) + [CategoryRow(categories[|categories| - 1], designerId)]
         == CategoryRows(categories, designerId)
  {
  }

  lemma RowValuesSnoc<T>(replies: seq<Reply<T>>)
    requires replies != [] && forall j :: 0 <= j < |replies| ==> replies[j].Row?
    ensures RowValues(replies[..|replies| - 1]) + [replies[|replies| - 1].value] == RowValues(replies)
  {
    var values := RowValues(replies[..|replies| - 1]) + [replies[|replies| - 1].value];
    assert forall j :: 0 <= j < |values| ==> values[j] == replies[j].value;
  }

  /** When every insert returns its row, the loop inserts one row per
      requested category in list order and collects every returned id. */
  lemma {:induction false} AssignAllReturned(categories: seq<CategoryId>, designerId: int, replies: seq<Reply<CategoryId>>)
    requires |replies| == |categories|
    requires forall j :: 0 <= j < |replies| ==> replies[j].Row?
    ensures Assign(categories, designerId, replies)
         == AssignRun(CategoryRows(categories, designerId), RowValues(replies), false)
  {
    if categories != [] {
      var n := |categories| - 1;
      var c, r := categories[..n], replies[..n];
      assert forall j :: 0 <= j < |r| ==> r[j] == replies[j];
      AssignAllReturned(c, designerId, r);
      CategoryRowsSnoc(categories, designerId);
      RowValuesSnoc(replies);
    }
  }

  /** When no insert raises and none returns a row, the loop inserts nothing
      and collects nothing. */
  lemma {:induction false} AssignNoneReturned(categories: seq<CategoryId>, designerId: int, replies: seq<Reply<CategoryId>>)
    requires |replies| == |categories|
    requires forall j :: 0 <= j < |replies| ==> replies[j].NoRow?
    ensures Assign(categories, designerId, replies) == AssignRun([], [], false)
  {
    if categories != [] {
      var n := |categories| - 1;
      AssignNoneReturned(categories[..n], designerId, replies[..n]);
    }
  }

  /** A run collects some id exactly when some insert before the first raise
      returned a row; so an empty id list without a raise means no reply was
      a row. */
  lemma {:induction false} AssignIdsNonEmpty(categories: seq<CategoryId>, designerId: int, replies: seq<Reply<CategoryId>>)
    requires |replies| == |categories|
    requires !Assign(categories, designerId, replies).raised
    ensures Assign(categories, designerId, replies).ids != []
        <==> exists j :: 0 <= j < |replies| && replies[j].Row?
  {
    if categories != [] {
      var n := |categories| - 1;
      AssignIdsNonEmpty(categories[..n], designerId, replies[..n]);
      assert forall j :: 0 <= j < n ==> replies[..n][j] == replies[j];
    }
  }

  /** Once a prefix of the loop has raised, the rest of the categories are
      never reached: the whole run is the run of that prefix. This is the
      partial write a failing insert leaves behind. */
  lemma {:induction false} AssignStopsAtRaise(categories: seq<CategoryId>, designerId: int,
                                              replies: seq<Reply<CategoryId>>, k: nat)
    requires |replies| == |categories| && k <= |categories|
    requires Assign(categories[..k], designerId, replies[..k]).raised
    ensures Assign(categories, designerId, replies) == Assign(categories[..k], designerId, replies[..k])
    decreases |categories| - k
  {
    if k < |categories| {
      var c, r := categories[..k + 1], replies[..k + 1];
      assert c[..k] == categories[..k] && r[..k] == replies[..k];
      AssignStopsAtRaise(categories, designerId, replies, k + 1);
    } else {
      assert categories[..k] == categories && replies[..k] == replies;
    }
  }

  /** The position of the first reply that raises, or the number of replies
      when none does. */
  function FirstRaise<T>(replies: seq<Reply<T>>): (k: nat)
    ensures k <= |replies|
    ensures forall j :: 0 <= j < k ==> !replies[j].Raises?
    ensures k < |replies| ==> replies[k].Raises?
  {
    if replies == [] then 0
    else
      var n := |replies| - 1;
      var k := FirstRaise(replies[..n]);
      if k < n || replies[n].Raises? then k else |replies|
  }

  /** The positions of the replies that returned a row, in increasing order. */
  function ReturnedAt<T>(replies: seq<Reply<T>>): (idx: seq<nat>)
    ensures forall m :: 0 <= m < |idx| ==> idx[m] < |replies| && replies[idx[m]].Row?
    ensures forall m, m' :: 0 <= m < m' < |idx| ==> idx[m] < idx[m']
    ensures forall j :: 0 <= j < |replies| && replies[j].Row? ==> j in idx
  {
    if replies == [] then []
    else
      var n := |replies| - 1;
      var prior := ReturnedAt(replies[..n]);
      if replies[n].Row? then prior + [n] else prior
  }

  /** One `(category, designerId)` row for each chosen position, in the order
      of the positions. */
  function RowsAt(categories: seq<CategoryId>, designerId: int, idx: seq<nat>): (rows: seq<CategoryRow>)
    requires forall m :: 0 <= m < |idx| ==> idx[m] < |categories|
    ensures |rows| == |idx|
    ensures forall m :: 0 <= m < |idx| ==> rows[m] == CategoryRow(categories[idx[m]], designerId)
  {
    seq(|idx|, m requires 0 <= m < |idx| => CategoryRow(categories[idx[m]], designerId))
  }

  /** The values returned at the chosen positions, in the order of the
      positions. */
  function ValuesAt<T>(replies: seq<Reply<T>>, idx: seq<nat>): (values: seq<T>)
    requires forall m :: 0 <= m < |idx| ==> idx[m] < |replies| && replies[idx[m]].Row?
    ensures |values| == |idx|
    ensures forall m :: 0 <= m < |idx| ==> values[m] == replies[idx[m]].value
  {
    seq(|idx|, m requires 0 <= m < |idx| => replies[idx[m]].value)
  }

  lemma RowsAtPrefix(categories: seq<CategoryId>, n: nat, designerId: int, idx: seq<nat>)
    requires n <= |categories| && forall m :: 0 <= m < |idx| ==> idx[m] < n
    ensures RowsAt(categories[..n], designerId, idx) == RowsAt(categories, designerId, idx)
  {
  }

  lemma ValuesAtPrefix<T>(replies: seq<Reply<T>>, n: nat, idx: seq<nat>)
    requires n <= |replies| && forall m :: 0 <= m < |idx| ==> idx[m] < n && replies[idx[m]].Row?
    ensures ValuesAt(replies[..n], idx) == ValuesAt(replies, idx)
  {
  }

  lemma RowsAtSnoc(categories: seq<CategoryId>, designerId: int, idx: seq<nat>, j: nat)
    requires j < |categories| && forall m :: 0 <= m < |idx| ==> idx[m] < |categories|
    ensures RowsAt(categories, designerId, idx + [j]) == RowsAt(categories, designerId, idx) + [CategoryRow(categories[j], designerId)]
  {
  }

  lemma ValuesAtSnoc<T>(replies: seq<Reply<T>>, idx: seq<nat>, j: nat)
    requires j < |replies| && replies[j].Row?
    requires forall m :: 0 <= m < |idx| ==> idx[m] < |replies| && replies[idx[m]].Row?
    ensures ValuesAt(replies, idx + [j]) == ValuesAt(replies, idx) + [replies[j].value]
  {
  }

  /** `run` is what the loop leaves for these replies: it raised exactly when
      some insert raised, and up to the first raise it holds one row and one
      id per insert that returned a row, in list order. */
  predicate Characterises(run: AssignRun, categories: seq<CategoryId>, designerId: int, replies: seq<Reply<CategoryId>>)
    requires |replies| == |categories|
  {
    var k := FirstRaise(replies);
    var idx := ReturnedAt(replies[..k]);
    && run.raised == (k < |replies|)
    && run.rows == RowsAt(categories, designerId, idx)
    && run.ids == ValuesAt(replies, idx)
  }

  /** The whole loop, for any mix of replies: it raises exactly when some
      insert raises; up to the first raise it inserts one row per insert that
      returned a row, for that insert's category and in list order, and
      collects the returned ids of the same inserts in the same order. */
  lemma {:induction false} AssignCharacterised(categories: seq<CategoryId>, designerId: int,
                                               replies: seq<Reply<CategoryId>>)
    requires |replies| == |categories|
    ensures var run := Assign(categories, designerId, replies);
      var k := FirstRaise(replies);
      var idx := ReturnedAt(replies[..k]);
      && run.raised == (k < |replies|)
      && run.rows == RowsAt(categories, designerId, idx)
      && run.ids == ValuesAt(replies, idx)
  {
    if categories != [] {
      var n := |categories| - 1;
      AssignCharacterised(categories[..n], designerId, replies[..n]);
      AssignCharacterisedStep(categories, designerId, replies);
    }
  }

  /** The inductive step of the lemma above: one more reply. */
  lemma AssignCharacterisedStep(categories: seq<CategoryId>, designerId: int, replies: seq<Reply<CategoryId>>)
    requires |replies| == |categories| && categories != []
    requires var n := |categories| - 1;
      Characterises(Assign(categories[..n], designerId, replies[..n]), categories[..n], designerId, replies[..n])
    ensures Characterises(Assign(categories, designerId, replies), categories, designerId, replies)
  {
    var n := |categories| - 1;
    var k' := FirstRaise(replies[..n]);
    if k' < n || replies[n].Raises? {
      StepAfterRaise(categories, designerId, replies);
    } else {
      StepWithoutRaise(categories, designerId, replies);
    }
  }

  /** The step when the earlier replies or the last one raised: the run is
      the earlier run, marked as raised. */
  lemma StepAfterRaise(categories: seq<CategoryId>, designerId: int, replies: seq<Reply<CategoryId>>)
    requires |replies| == |categories| && categories != []
    requires var n := |categories| - 1;
      Characterises(Assign(categories[..n], designerId, replies[..n]), categories[..n], designerId, replies[..n])
    requires var n := |categories| - 1; FirstRaise(replies[..n]) < n || replies[n].Raises?
    ensures Characterises(Assign(categories, designerId, replies), categories, designerId, replies)
  {
    var n := |categories| - 1;
    var r := replies[..n];
    var prior := Assign(categories[..n], designerId, r);
    var k := FirstRaise(r);
    assert FirstRaise(replies) == k;
    assert Assign(categories, designerId, replies) == prior.(raised := true);
    assert r[..k] == replies[..k];
    var idx := ReturnedAt(replies[..k]);
    RowsAtPrefix(categories, n, designerId, idx);
    ValuesAtPrefix(replies, n, idx);
  }

  /** The step when no reply raised: the last reply adds its row and id when
      it returned one. */
  lemma StepWithoutRaise(categories: seq<CategoryId>, designerId: int, replies: seq<Reply<CategoryId>>)
    requires |replies| == |categories| && categories != []
    requires var n := |categories| - 1;
      Characterises(Assign(categories[..n], designerId, replies[..n]), categories[..n], designerId, replies[..n])
    requires var n := |categories| - 1; FirstRaise(replies[..n]) == n && !replies[n].Raises?
    ensures Characterises(Assign(categories, designerId, replies), categories, designerId, replies)
  {
    var n := |categories| - 1;
    var r := replies[..n];
    assert r[..n] == r;
    var idx := ReturnedAt(r);
    assert FirstRaise(replies) == |replies|;
    assert replies[..|replies|] == replies;
    RowsAtPrefix(categories, n, designerId, idx);
    ValuesAtPrefix(replies, n, idx);
    if replies[n].Row? {
      assert ReturnedAt(replies) == idx + [n];
      RowsAtSnoc(categories, designerId, idx, n);
      ValuesAtSnoc(replies, idx, n);
    } else {
      assert ReturnedAt(replies) == idx;
    }
  }

  // ---------------------------------------------------------------------------
  // The three workflows, as functions of the tables
  // ---------------------------------------------------------------------------

  /** `updateProfile`: the guard, then one update statement whose result
      object always counts as success. */
  function UpdateProfileSpec(t: Tables, userId: UserId, firstName: string, lastName: string,
                             picture: string, phone: string, raises: bool): After<bool>
  {
    if RejectsProfile(userId, firstName, lastName) then After(t, Ok(false))
    else if raises then After(t, Failed)
    else After(t.(users := WithProfile(t.users, userId, firstName, lastName, picture, phone)), Ok(true))
  }

  /** `convertToDesigner`: the guard, the designer insert, the category loop
      when the designer id is truthy, and the role update when the loop
      collected at least one id. Nothing written is undone on a later
      failure. */
  function ConvertToDesignerSpec(t: Tables, userId: UserId, locationId: LocationId, categories: seq<CategoryId>,
                                 designerReply: Reply<int>, categoryReplies: seq<Reply<CategoryId>>,
                                 roleRaises: bool): After<bool>
    requires |categoryReplies| == |categories|
  {
    if RejectsDesigner(userId, locationId, categories) then After(t, Ok(false))
    else match designerReply
      case Raises => After(t, Failed)
      case NoRow => After(t, Ok(false))
      case Row(designerId) =>
        var t1 := t.(designers := t.designers + [DesignerRow(designerId, userId, locationId)]);
        if designerId == 0 then After(t1, Ok(false))
        else
          var run := Assign(categories, designerId, categoryReplies);
          var t2 := t1.(assignments := t1.assignments + run.rows);
          if run.raised then After(t2, Failed)
          else if run.ids == [] then After(t2, Ok(false))
          else if roleRaises then After(t2, Failed)
          else After(t2.(users := WithRole(t2.users, userId, Designer)), Ok(true))
  }

  /** `convertToEmployer`: the guard, then one role update. */
  function ConvertToEmployerSpec(t: Tables, userId: UserId, raises: bool): After<bool> {
    if RejectsEmployer(userId) then After(t, Ok(false))
    else if raises then After(t, Failed)
    else After(t.(users := WithRole(t.users, userId, Employer)), Ok(true))
  }

  // ---------------------------------------------------------------------------
  // Properties of the workflows
  // ---------------------------------------------------------------------------

  /** A rejected profile update answers false and changes nothing; an
      accepted one that does not raise answers true and rewrites the
      profile columns of the rows with that id, even when there is none. */
  lemma UpdateProfileOutcome(t: Tables, userId: UserId, firstName: string, lastName: string,
                             picture: string, phone: string, raises: bool)
    ensures var a := UpdateProfileSpec(t, userId, firstName, lastName, picture, phone, raises);
      && (a.outcome == Ok(false) <==> RejectsProfile(userId, firstName, lastName))
      && (a.outcome != Ok(true) ==> a.tables == t)
      && (a.outcome == Ok(true) <==> !RejectsProfile(userId, firstName, lastName) && !raises)
      && a.tables.designers == t.designers && a.tables.assignments == t.assignments
      && ((forall u :: u in t.users ==> u.id != userId) && !raises ==> a.tables == t)
  {
    var r := WithProfile(t.users, userId, firstName, lastName, picture, phone);
    if forall u :: u in t.users ==> u.id != userId {
      assert forall i :: 0 <= i < |r| ==> t.users[i] in t.users;
      assert r == t.users;
    }
  }

  /** A rejected conversion answers false and issues no statement. */
  lemma ConvertRejected(t: Tables, userId: UserId, locationId: LocationId, categories: seq<CategoryId>,
                        designerReply: Reply<int>, categoryReplies: seq<Reply<CategoryId>>, roleRaises: bool)
    requires |categoryReplies| == |categories|
    requires RejectsDesigner(userId, locationId, categories)
    ensures ConvertToDesignerSpec(t, userId, locationId, categories, designerReply, categoryReplies, roleRaises)
         == After(t, Ok(false))
  {
  }

  /** Without a truthy designer id the conversion answers false, inserts no
      category row and leaves every role as it was; a falsy id still leaves
      the designer row it names. */
  lemma ConvertWithoutDesignerId(t: Tables, userId: UserId, locationId: LocationId, categories: seq<CategoryId>,
                                 designerReply: Reply<int>, categoryReplies: seq<Reply<CategoryId>>, roleRaises: bool)
    requires |categoryReplies| == |categories|
    requires !RejectsDesigner(userId, locationId, categories)
    requires designerReply == NoRow || designerReply == Row(0)
    ensures var a := ConvertToDesignerSpec(t, userId, locationId, categories, designerReply, categoryReplies, roleRaises);
      && a.outcome == Ok(false)
      && a.tables.users == t.users && a.tables.assignments == t.assignments
      && a.tables.designers == t.designers + (if designerReply.Row? then [DesignerRow(0, userId, locationId)] else [])
  {
  }

  /** Past the guard and a truthy designer id, the conversion's answer and
      tables depend only on the category loop and the role update. */
  lemma ConvertPastDesignerRow(t: Tables, userId: UserId, locationId: LocationId, categories: seq<CategoryId>,
                               designerId: int, categoryReplies: seq<Reply<CategoryId>>, roleRaises: bool)
    requires |categoryReplies| == |categories|
    requires !RejectsDesigner(userId, locationId, categories) && designerId != 0
    ensures var run := Assign(categories, designerId, categoryReplies);
      var t2 := Tables(t.users, t.designers + [DesignerRow(designerId, userId, locationId)], t.assignments + run.rows);
      ConvertToDesignerSpec(t, userId, locationId, categories, Row(designerId), categoryReplies, roleRaises)
        == if run.raised then After(t2, Failed)
           else if run.ids == [] then After(t2, Ok(false))
           else if roleRaises then After(t2, Failed)
           else After(t2.(users := WithRole(t.users, userId, Designer)), Ok(true))
  {
  }

  /** When no category insert returns a row the conversion answers false,
      but the designer row it inserted stays: there is no rollback. */
  lemma {:induction false} ConvertWithoutCategories(t: Tables, userId: UserId, locationId: LocationId,
                                                    categories: seq<CategoryId>, designerId: int,
                                                    categoryReplies: seq<Reply<CategoryId>>, roleRaises: bool)
    requires |categoryReplies| == |categories|
    requires !RejectsDesigner(userId, locationId, categories) && designerId != 0
    requires forall j :: 0 <= j < |categoryReplies| ==> categoryReplies[j].NoRow?
    ensures ConvertToDesignerSpec(t, userId, locationId, categories, Row(designerId), categoryReplies, roleRaises)
         == After(t.(designers := t.designers + [DesignerRow(designerId, userId, locationId)]), Ok(false))
  {
    ConvertPastDesignerRow(t, userId, locationId, categories, designerId, categoryReplies, roleRaises);
    AssignNoneReturned(categories, designerId, categoryReplies);
    assert t.assignments + [] == t.assignments;
  }

  /** When a category insert raises, the conversion fails and keeps the
      designer row and the category rows that the earlier inserts returned,
      in list order; the role is not touched. */
  lemma {:induction false} ConvertFailsMidway(t: Tables, userId: UserId, locationId: LocationId,
                                              categories: seq<CategoryId>, designerId: int,
                                              categoryReplies: seq<Reply<CategoryId>>, roleRaises: bool, k: nat)
    requires |categoryReplies| == |categories| && k < |categories|
    requires !RejectsDesigner(userId, locationId, categories) && designerId != 0
    requires categoryReplies[k].Raises?
    requires forall j :: 0 <= j < k ==> !categoryReplies[j].Raises?
    ensures ConvertToDesignerSpec(t, userId, locationId, categories, Row(designerId), categoryReplies, roleRaises)
         == After(Tables(t.users, t.designers + [DesignerRow(designerId, userId, locationId)],
                         t.assignments + RowsAt(categories, designerId, ReturnedAt(categoryReplies[..k]))), Failed)
  {
    ConvertPastDesignerRow(t, userId, locationId, categories, designerId, categoryReplies, roleRaises);
    AssignCharacterised(categories, designerId, categoryReplies);
    assert FirstRaise(categoryReplies) == k;
  }

  /** The full success path: exactly one designer row for (user, location)
      is added, one category row per requested category in list order, the
      user holds the designer role and no longer the personal one, other ids
      keep their roles, and the answer is true. */
  lemma {:induction false} ConvertSucceeds(t: Tables, userId: UserId, locationId: LocationId,
                                           categories: seq<CategoryId>, designerId: int,
                                           categoryReplies: seq<Reply<CategoryId>>)
    requires |categoryReplies| == |categories|
    requires !RejectsDesigner(userId, locationId, categories) && designerId != 0
    requires forall j :: 0 <= j < |categoryReplies| ==> categoryReplies[j].Row?
    ensures var a := ConvertToDesignerSpec(t, userId, locationId, categories, Row(designerId), categoryReplies, false);
      && a.outcome == Ok(true)
      && a.tables.designers == t.designers + [DesignerRow(designerId, userId, locationId)]
      && a.tables.assignments == t.assignments + CategoryRows(categories, designerId)
      && a.tables.users == WithRole(t.users, userId, Designer)
      && (HasRole(a.tables.users, userId, Designer) <==> exists u :: u in t.users && u.id == userId)
      && !HasRole(a.tables.users, userId, Personal)
  {
    AssignAllReturned(categories, designerId, categoryReplies);
    WithRoleGrants(t.users, userId, Designer);
    WithRoleRevokes(t.users, userId, Designer, Personal);
  }

  /** The conversion answers true exactly on the full path, and whatever
      happens it only appends to `designers` and `designer_assigned_categories`;
      roles change only when it answers true. */
  lemma {:induction false} ConvertTrueOnlyOnFullPath(t: Tables, userId: UserId, locationId: LocationId,
                                                     categories: seq<CategoryId>, designerReply: Reply<int>,
                                                     categoryReplies: seq<Reply<CategoryId>>, roleRaises: bool)
    requires |categoryReplies| == |categories|
    ensures var a := ConvertToDesignerSpec(t, userId, locationId, categories, designerReply, categoryReplies, roleRaises);
      && (a.outcome == Ok(true) <==>
            && !RejectsDesigner(userId, locationId, categories)
            && designerReply.Row? && designerReply.value != 0
            && !Assign(categories, designerReply.value, categoryReplies).raised
            && (exists j :: 0 <= j < |categoryReplies| && categoryReplies[j].Row?)
            && !roleRaises)
      && t.designers <= a.tables.designers && |a.tables.designers| <= |t.designers| + 1
      && t.assignments <= a.tables.assignments
      && (a.outcome != Ok(true) ==> a.tables.users == t.users)
  {
    if !RejectsDesigner(userId, locationId, categories) && designerReply.Row? && designerReply.value != 0 {
      var run := Assign(categories, designerReply.value, categoryReplies);
      if !run.raised {
        AssignIdsNonEmpty(categories, designerReply.value, categoryReplies);
      }
    }
  }

  /** Converting to employer: a blank id answers false and changes nothing;
      otherwise, unless the statement raises, the user holds the employer
      role and neither the personal nor the designer role, other ids keep
      their roles, only `users` changes, and the answer is true. */
  lemma ConvertToEmployerOutcome(t: Tables, userId: UserId, raises: bool)
    ensures var a := ConvertToEmployerSpec(t, userId, raises);
      && (RejectsEmployer(userId) ==> a == After(t, Ok(false)))
      && (raises ==> a.tables == t)
      && a.tables.designers == t.designers && a.tables.assignments == t.assignments
      && (!RejectsEmployer(userId) && !raises ==>
            && a.outcome == Ok(true)
            && (HasRole(a.tables.users, userId, Employer) <==> exists u :: u in t.users && u.id == userId)
            && !HasRole(a.tables.users, userId, Personal)
            && !HasRole(a.tables.users, userId, Designer)
            && forall x, role :: x != userId ==> (HasRole(a.tables.users, x, role) <==> HasRole(t.users, x, role)))
  {
    if !RejectsEmployer(userId) && !raises {
      WithRoleGrants(t.users, userId, Employer);
      WithRoleRevokes(t.users, userId, Employer, Personal);
      WithRoleRevokes(t.users, userId, Employer, Designer);
      forall x, role | x != userId
        ensures HasRole(WithRole(t.users, userId, Employer), x, role) <==> HasRole(t.users, x, role)
      {
        WithRoleKeepsOthers(t.users, userId, Employer, x, role);
      }
    }
  }

  // ---------------------------------------------------------------------------
  // The store and the service's operations on it
  // ---------------------------------------------------------------------------

  class Store {
    var users: seq<User>
    var designers: seq<DesignerRow>
    var assignments: seq<CategoryRow>

    /** The tables as they stand. */
    function Snapshot(): Tables
      reads this
    {
      Tables(users, designers, assignments)
    }

    constructor (t: Tables)
      ensures Snapshot() == t
    {
      users, designers, assignments := t.users, t.designers, t.assignments;
    }

    /** `createDesignerAccount`: insert the designer row and hand back the
        returned id, or nothing when no row came back. */
    method CreateDesignerAccount(userId: UserId, locationId: LocationId, reply: Reply<int>)
      returns (r: Outcome<Option<int>>)
      modifies this
      ensures users == old(users) && assignments == old(assignments)
      ensures designers == old(designers) + (if reply.Row? then [DesignerRow(reply.value, userId, locationId)] else [])
      ensures r == match reply
        case Raises => Failed
        case NoRow => Ok(None)
        case Row(id) => Ok(Some(id))
    {
      match reply {
        case Raises =>
          r := Failed;
        case NoRow =>
          r := Ok(None);
        case Row(id) =>
          designers := designers + [DesignerRow(id, userId, locationId)];
          r := Ok(Some(id));
      }
    }

    /** `assignCategoryForDesigner`: one insert per category, in list order,
        collecting the id each insert returns. */
    method AssignCategoryForDesigner(categories: seq<CategoryId>, designerId: int, replies: seq<Reply<CategoryId>>)
      returns (r: Outcome<seq<CategoryId>>)
      requires |replies| == |categories|
      modifies this
      ensures users == old(users) && designers == old(designers)
      ensures var run := Assign(categories, designerId, replies);
        assignments == old(assignments) + run.rows && r == if run.raised then Failed else Ok(run.ids)
    {
      var ids: seq<CategoryId> := [];
      var i := 0;
      while i < |categories|
        invariant 0 <= i <= |categories|
        invariant users == old(users) && designers == old(designers)
        invariant old(assignments) <= assignments
        invariant Assign(categories[..i], designerId, replies[..i])
               == AssignRun(assignments[|old(assignments)|..], ids, false)
      {
        AssignSnoc(categories, designerId, replies, i);
        match replies[i] {
          case Raises =>
            AssignStopsAtRaise(categories, designerId, replies, i + 1);
            r := Failed;
            return;
          case NoRow =>
          case Row(id) =>
            assignments := assignments + [CategoryRow(categories[i], designerId)];
            ids := ids + [id];
        }
        i := i + 1;
      }
      assert categories[..i] == categories && replies[..i] == replies;
      r := Ok(ids);
    }

    /** `updateProfileData`: one update statement; any result object counts
        as success. */
    method UpdateProfileData(userId: UserId, firstName: string, lastName: string,
                             picture: string, phone: string, raises: bool)
      returns (r: Outcome<bool>)
      modifies this
      ensures designers == old(designers) && assignments == old(assignments)
      ensures users == if raises then old(users) else WithProfile(old(users), userId, firstName, lastName, picture, phone)
      ensures r == if raises then Failed else Ok(true)
    {
      if raises {
        r := Failed;
      } else {
        users := WithProfile(users, userId, firstName, lastName, picture, phone);
        r := Ok(true);
      }
    }

    /** `updateUserRoleToDesigner`. */
    method UpdateUserRoleToDesigner(userId: UserId, raises: bool) returns (r: Outcome<bool>)
      modifies this
      ensures designers == old(designers) && assignments == old(assignments)
      ensures users == if raises then old(users) else WithRole(old(users), userId, Designer)
      ensures r == if raises then Failed else Ok(true)
    {
      if raises {
        r := Failed;
      } else {
        users := WithRole(users, userId, Designer);
        r := Ok(true);
      }
    }

    /** `updateUserRoleToEmployer`. */
    method UpdateUserRoleToEmployer(userId: UserId, raises: bool) returns (r: Outcome<bool>)
      modifies this
      ensures designers == old(designers) && assignments == old(assignments)
      ensures users == if raises then old(users) else WithRole(old(users), userId, Employer)
      ensures r == if raises then Failed else Ok(true)
    {
      if raises {
        r := Failed;
      } else {
        users := WithRole(users, userId, Employer);
        r := Ok(true);
      }
    }

    /** `updateProfile`. */
    method UpdateProfile(userId: UserId, firstName: string, lastName: string,
                         picture: string, phone: string, raises: bool)
      returns (r: Outcome<bool>)
      modifies this
      ensures After(Snapshot(), r) == UpdateProfileSpec(old(Snapshot()), userId, firstName, lastName, picture, phone, raises)
    {
      if IsBlank(userId) || |firstName| == 0 || |lastName| == 0 || IsBlank(firstName) || IsBlank(lastName) {
        return Ok(false);
      }
      r := UpdateProfileData(userId, firstName, lastName, picture, phone, raises);
    }

    /** `convertToDesigner`: three dependent steps with early exits and no
        rollback. */
    method ConvertToDesigner(userId: UserId, locationId: LocationId, categories: seq<CategoryId>,
                             designerReply: Reply<int>, categoryReplies: seq<Reply<CategoryId>>, roleRaises: bool)
      returns (r: Outcome<bool>)
      requires |categoryReplies| == |categories|
      modifies this
      ensures After(Snapshot(), r) == ConvertToDesignerSpec(old(Snapshot()), userId, locationId, categories,
                                                           designerReply, categoryReplies, roleRaises)
    {
      if IsBlank(userId) || IsBlank(locationId) || |categories| == 0 {
        return Ok(false);
      }
      var created := CreateDesignerAccount(userId, locationId, designerReply);
      if created.Failed? {
        return Failed;
      }
      if created.value.None? || created.value.value == 0 {
        return Ok(false);
      }
      var designerId := created.value.value;
      var collected := AssignCategoryForDesigner(categories, designerId, categoryReplies);
      if collected.Failed? {
        return Failed;
      }
      if |collected.value| == 0 {
        return Ok(false);
      }
      r := UpdateUserRoleToDesigner(userId, roleRaises);
    }

    /** `convertToEmployer`. */
    method ConvertToEmployer(userId: UserId, raises: bool) returns (r: Outcome<bool>)
      modifies this
      ensures After(Snapshot(), r) == ConvertToEmployerSpec(old(Snapshot()), userId, raises)
    {
      if IsBlank(userId) {
        return Ok(false);
      }
      r := UpdateUserRoleToEmployer(userId, raises);
    }

    /** `checkUserAvailable`: some row of `users` has this id and the
        personal role. */
    method CheckUserAvailable(id: UserId) returns (available: bool)
      ensures available <==> HasRole(users, id, Personal)
    {
      var rows := SelectUsers(users, id, Personal);
      SelectFindsRole(users, id, Personal);
      available := |rows| > 0;
    }
  }
}
