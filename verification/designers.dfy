/** The designer query service: the designer-role check, the listing of all
    designers ordered by first name, the shaping of the rows the store-side
    listing functions return, and the follow toggle on `followings`. The
    store-side functions `get_filtered_designers`, `get_public_designers` and
    `get_designer_data` are opaque: each is a parameter from its positional
    arguments to the rows it returns. */
module DesignerService {
  import opened Schema

  // ---------------------------------------------------------------------------
  // Designer-role check
  // ---------------------------------------------------------------------------

  /** `checkUserAvailable`: the select by id and designer role returned at
      least one row. */
  function CheckUserAvailable(users: seq<User>, id: UserId): (available: bool)
    ensures available <==> HasRole(users, id, Designer)
  {
    SelectFindsRole(users, id, Designer);
    |SelectUsers(users, id, Designer)| > 0
  }

  // ---------------------------------------------------------------------------
  // Listing of all designers
  // ---------------------------------------------------------------------------

  /** The columns `getAllDesigners` selects; `role` stands for the value
      column of the user's role. */
  datatype DesignerSummary = DesignerSummary(
    id: UserId,
    firstName: string,
    lastName: string,
    email: string,
    role: Role,
    profilePicture: string)

  function Summarize(u: User): DesignerSummary {
    DesignerSummary(u.id, u.firstName, u.lastName, u.email, u.role, u.profilePicture)
  }

  /** The positions of the designer-role rows of `users`, in table order. */
  function DesignerIndices(users: seq<User>): (idx: seq<nat>)
    ensures forall m :: 0 <= m < |idx| ==> idx[m] < |users| && users[idx[m]].role == Designer
    ensures forall m, m' :: 0 <= m < m' < |idx| ==> idx[m] < idx[m']
    ensures forall j :: 0 <= j < |users| && users[j].role == Designer ==> j in idx
  {
    if users == [] then []
    else
      var n := |users| - 1;
      var prior := DesignerIndices(users[..n]);
      if users[n].role == Designer then prior + [n] else prior
  }

  /** The designer-role users, projected, in table order (before `ORDER BY`):
      one summary per designer-role row, so a designer is listed once per
      row and every other row is left out. */
  function DesignerSummaries(users: seq<User>): (r: seq<DesignerSummary>)
    ensures var idx := DesignerIndices(users);
      |r| == |idx| && forall m :: 0 <= m < |r| ==> r[m] == Summarize(users[idx[m]])
  {
    if users == [] then []
    else
      var n := |users| - 1;
      var rest := DesignerSummaries(users[..n]);
      if users[n].role == Designer then rest + [Summarize(users[n])] else rest
  }

  /** The summaries listed are exactly those of the designer-role users. */
  lemma DesignerSummariesMembers(users: seq<User>)
    ensures forall s :: s in DesignerSummaries(users)
                    <==> exists u :: u in users && u.role == Designer && s == Summarize(u)
  {
    var r, idx := DesignerSummaries(users), DesignerIndices(users);
    forall s | s in r ensures exists u :: u in users && u.role == Designer && s == Summarize(u) {
      var m :| 0 <= m < |r| && r[m] == s;
      assert users[idx[m]] in users;
    }
    forall u | u in users && u.role == Designer ensures Summarize(u) in r {
      var j :| 0 <= j < |users| && users[j] == u;
      var m :| 0 <= m < |idx| && idx[m] == j;
      assert r[m] == Summarize(u);
    }
  }

  /** The order `ORDER BY first_name` sorts on: code-point lexicographic order
      (a prefix comes first). */
  predicate NameLe(a: string, b: string) {
    a == [] || (b != [] && (a[0] < b[0] || (a[0] == b[0] && NameLe(a[1..], b[1..]))))
  }

  lemma {:induction false} NameLeTotal(a: string, b: string)
    ensures NameLe(a, b) || NameLe(b, a)
  {
    if a != [] && b != [] && a[0] == b[0] {
      NameLeTotal(a[1..], b[1..]);
    }
  }

  lemma {:induction false} NameLeTransitive(a: string, b: string, c: string)
    requires NameLe(a, b) && NameLe(b, c)
    ensures NameLe(a, c)
  {
    if a != [] && b != [] && c != [] && a[0] == b[0] && b[0] == c[0] {
      NameLeTransitive(a[1..], b[1..], c[1..]);
    }
  }

  predicate SortedByFirstName(s: seq<DesignerSummary>) {
    forall i, j :: 0 <= i < j < |s| ==> NameLe(s[i].firstName, s[j].firstName)
  }

  /** A summary whose first name comes before every first name of a sorted
      list can be put in front of it. */
  lemma ConsSorted(h: DesignerSummary, s: seq<DesignerSummary>)
    requires SortedByFirstName(s)
    requires forall j :: 0 <= j < |s| ==> NameLe(h.firstName, s[j].firstName)
    ensures SortedByFirstName([h] + s)
  {
    var r := [h] + s;
    forall i, j | 0 <= i < j < |r|
      ensures NameLe(r[i].firstName, r[j].firstName)
    {
      if i > 0 {
        assert r[i] == s[i - 1] && r[j] == s[j - 1];
      } else {
        assert r[j] == s[j - 1];
      }
    }
  }

  /** A lower bound of every first name in `tail` and of `x` bounds every
      first name in a list holding exactly `tail` and `x`. */
  lemma LowerBoundCarries(lo: string, x: DesignerSummary, tail: seq<DesignerSummary>, rest: seq<DesignerSummary>)
    requires NameLe(lo, x.firstName)
    requires forall j :: 0 <= j < |tail| ==> NameLe(lo, tail[j].firstName)
    requires multiset(rest) == multiset(tail) + multiset{x}
    ensures forall j :: 0 <= j < |rest| ==> NameLe(lo, rest[j].firstName)
  {
    forall j | 0 <= j < |rest|
      ensures NameLe(lo, rest[j].firstName)
    {
      assert rest[j] in multiset(rest);
      if rest[j] != x {
        assert rest[j] in multiset(tail);
        var k :| 0 <= k < |tail| && tail[k] == rest[j];
      }
    }
  }

  /** Putting a summary in front of a sorted list whose head's first name
      does not come before it keeps the list sorted. */
  lemma InsertInFront(x: DesignerSummary, s: seq<DesignerSummary>)
    requires SortedByFirstName(s) && s != [] && NameLe(x.firstName, s[0].firstName)
    ensures SortedByFirstName([x] + s)
  {
    forall j | 0 < j < |s| ensures NameLe(x.firstName, s[j].firstName) {
      NameLeTransitive(x.firstName, s[0].firstName, s[j].firstName);
    }
    ConsSorted(x, s);
  }

  /** Keeping the head of a sorted list in front of the sorted insertion into
      its tail keeps the list sorted when the inserted name does not come
      before the head's. */
  lemma InsertBehindHead(x: DesignerSummary, s: seq<DesignerSummary>, rest: seq<DesignerSummary>)
    requires SortedByFirstName(s) && s != [] && !NameLe(x.firstName, s[0].firstName)
    requires SortedByFirstName(rest) && multiset(rest) == multiset(s[1..]) + multiset{x}
    ensures SortedByFirstName([s[0]] + rest)
  {
    var tail := s[1..];
    NameLeTotal(x.firstName, s[0].firstName);
    forall j | 0 <= j < |tail| ensures NameLe(s[0].firstName, tail[j].firstName) {
      assert tail[j] == s[j + 1];
    }
    LowerBoundCarries(s[0].firstName, x, tail, rest);
    ConsSorted(s[0], rest);
  }

  /** Inserts one summary into a list sorted by first name, after every
      summary whose first name comes strictly before it. */
  function InsertByFirstName(x: DesignerSummary, s: seq<DesignerSummary>): (r: seq<DesignerSummary>)
    requires SortedByFirstName(s)
    ensures SortedByFirstName(r)
    ensures multiset(r) == multiset(s) + multiset{x}
  {
    if s == [] then [x]
    else if NameLe(x.firstName, s[0].firstName) then
      InsertInFront(x, s);
      [x] + s
    else
      var rest := InsertByFirstName(x, s[1..]);
      InsertBehindHead(x, s, rest);
      assert s == [s[0]] + s[1..];
      [s[0]] + rest
  }

  /** Sorts summaries by first name (insertion sort). */
  function SortByFirstName(s: seq<DesignerSummary>): (r: seq<DesignerSummary>)
    ensures SortedByFirstName(r)
    ensures multiset(r) == multiset(s)
  {
    if s == [] then []
    else
      assert s == [s[0]] + s[1..];
      InsertByFirstName(s[0], SortByFirstName(s[1..]))
  }

  /** `getAllDesigners`: the designer-role users, projected to their summary
      columns, ordered non-decreasingly by first name. How the store orders
      users with equal first names is not fixed; this is one of the allowed
      orders, and the contract holds of every one. */
  function GetAllDesigners(users: seq<User>): (r: seq<DesignerSummary>)
    ensures SortedByFirstName(r)
    ensures multiset(r) == multiset(DesignerSummaries(users))
  {
    SortByFirstName(DesignerSummaries(users))
  }

  /** The listing holds exactly the summaries of the designer-role users, and
      an id appears in it exactly when the designer-role check accepts it. */
  lemma {:induction false} AllDesignersAreTheDesigners(users: seq<User>, id: UserId)
    ensures forall s :: s in GetAllDesigners(users)
                    <==> exists u :: u in users && u.role == Designer && s == Summarize(u)
    ensures (exists s :: s in GetAllDesigners(users) && s.id == id) <==> CheckUserAvailable(users, id)
    ensures |GetAllDesigners(users)| == |DesignerIndices(users)|
  {
    DesignerSummariesMembers(users);
    var r := GetAllDesigners(users);
    assert forall s :: s in r <==> s in multiset(r);
    assert forall s :: s in DesignerSummaries(users) <==> s in multiset(DesignerSummaries(users));
    if CheckUserAvailable(users, id) {
      var u :| u in users && u.id == id && u.role == Designer;
      assert Summarize(u) in r;
    }
  }

  /** Two listings that are both sorted by first name and hold the same
      summaries agree on the sequence of first names: they can differ only in
      the order of designers who share a first name. */
  lemma {:induction false} ListingFirstNamesDetermined(a: seq<DesignerSummary>, b: seq<DesignerSummary>)
    requires SortedByFirstName(a) && SortedByFirstName(b) && multiset(a) == multiset(b)
    ensures |a| == |b|
    ensures forall k :: 0 <= k < |a| ==> a[k].firstName == b[k].firstName
    decreases |a|
  {
    assert |a| == |multiset(a)| == |multiset(b)| == |b|;
    if a != [] {
      var i, rest := MatchHead(a, b);
      ListingFirstNamesDetermined(a[1..], rest);
      FirstNamesAcrossRemoval(a, b, rest, i);
    }
  }

  /** Finds `a`'s head in `b`: what is left of `b` without that entry is
      sorted, holds exactly `a`'s tail, and the entry shares `b[0]`'s first
      name. */
  lemma MatchHead(a: seq<DesignerSummary>, b: seq<DesignerSummary>) returns (i: nat, rest: seq<DesignerSummary>)
    requires SortedByFirstName(a) && SortedByFirstName(b) && multiset(a) == multiset(b) && a != []
    ensures i < |b| && b[i] == a[0] && rest == RemoveAt(b, i)
    ensures a[0].firstName == b[0].firstName
    ensures SortedByFirstName(a[1..]) && SortedByFirstName(rest) && multiset(a[1..]) == multiset(rest)
  {
    HeadFirstNamesAgree(a, b);
    assert a[0] in multiset(b);
    i :| 0 <= i < |b| && b[i] == a[0];
    rest := RemoveAt(b, i);
    assert a == [a[0]] + a[1..];
    assert multiset(a[1..]) == multiset(rest);
  }

  /** Two sorted listings with the same entries start with the same first
      name: each head's name is at most the other's. */
  lemma HeadFirstNamesAgree(a: seq<DesignerSummary>, b: seq<DesignerSummary>)
    requires SortedByFirstName(a) && SortedByFirstName(b) && multiset(a) == multiset(b) && a != []
    ensures b != [] && a[0].firstName == b[0].firstName
  {
    assert a[0] in multiset(b);
    assert b != [];
    assert b[0] in multiset(a);
    var i :| 0 <= i < |b| && b[i] == a[0];
    var j :| 0 <= j < |a| && a[j] == b[0];
    NameLeReflexive(a[0].firstName);
    assert NameLe(b[0].firstName, a[0].firstName) by { assert i == 0 || NameLe(b[0].firstName, b[i].firstName); }
    assert NameLe(a[0].firstName, b[0].firstName) by { assert j == 0 || NameLe(a[0].firstName, a[j].firstName); }
    NameLeAntisymmetric(a[0].firstName, b[0].firstName);
  }

  /** The last step of the lemma above: if `a` without its head matches `b`
      without position `i` name for name, and `b`'s entries up to `i` all
      share `b[0]`'s first name, then `a` matches `b` name for name. */
  lemma FirstNamesAcrossRemoval(a: seq<DesignerSummary>, b: seq<DesignerSummary>, rest: seq<DesignerSummary>, i: nat)
    requires SortedByFirstName(b) && i < |b| && |a| == |b| && rest == RemoveAt(b, i)
    requires a[0].firstName == b[0].firstName == b[i].firstName
    requires forall k :: 0 <= k < |rest| ==> a[1..][k].firstName == rest[k].firstName
    ensures forall k :: 0 <= k < |a| ==> a[k].firstName == b[k].firstName
  {
    forall k | 0 < k < |a| ensures a[k].firstName == b[k].firstName {
      assert a[k] == a[1..][k - 1];
      if k <= i {
        assert rest[k - 1] == b[k - 1];
        assert NameLe(b[k - 1].firstName, b[k].firstName);
        assert k == i || NameLe(b[k].firstName, b[i].firstName);
        assert k == 1 || NameLe(b[0].firstName, b[k - 1].firstName);
        NameLeSqueeze(b[0].firstName, b[k - 1].firstName, b[k].firstName, b[i].firstName);
      } else {
        assert rest[k - 1] == b[k];
      }
    }
  }

  /** `b` without its entry at position `i`: still sorted, and holding the
      other entries. */
  function RemoveAt(b: seq<DesignerSummary>, i: nat): (r: seq<DesignerSummary>)
    requires i < |b|
    ensures |r| == |b| - 1
    ensures forall k :: 0 <= k < i ==> r[k] == b[k]
    ensures forall k :: i <= k < |r| ==> r[k] == b[k + 1]
    ensures multiset(r) == multiset(b) - multiset{b[i]}
    ensures SortedByFirstName(b) ==> SortedByFirstName(r)
  {
    assert b == b[..i] + [b[i]] + b[i + 1..];
    b[..i] + b[i + 1..]
  }

  lemma {:induction false} NameLeReflexive(a: string)
    ensures NameLe(a, a)
  {
    if a != [] {
      NameLeReflexive(a[1..]);
    }
  }

  lemma {:induction false} NameLeAntisymmetric(a: string, b: string)
    requires NameLe(a, b) && NameLe(b, a)
    ensures a == b
  {
    if a != [] && b != [] {
      NameLeAntisymmetric(a[1..], b[1..]);
      assert a == [a[0]] + a[1..] && b == [b[0]] + b[1..];
    }
  }

  /** Names caught between two equal names are equal to them. */
  lemma NameLeSqueeze(lo: string, x: string, y: string, hi: string)
    requires lo == hi && (NameLe(lo, x) || lo == x) && NameLe(x, y) && (NameLe(y, hi) || y == hi)
    ensures x == lo && y == lo
  {
    NameLeReflexive(lo);
    NameLeTransitive(x, y, hi);
    NameLeAntisymmetric(lo, x);
    NameLeTransitive(lo, x, y);
    NameLeAntisymmetric(lo, y);
  }

  // ---------------------------------------------------------------------------
  // Store-side listing functions and the shaping of their rows
  // ---------------------------------------------------------------------------

  /** One row a store-side function returns; apart from the denormalised
      `total` count its columns are opaque to the service. */
  datatype Row = Row(total: int, columns: map<string, string>)

  /** One positional argument of a store-side function call. */
  datatype Param = Text(text: string) | Flag(flag: bool) | Ids(ids: seq<string>) | Number(number: int)

  /** The result object of the paginated listings. */
  datatype Page = Page(designers: seq<Row>, total: int)

  /** The arguments `$1 … $8` of `get_filtered_designers`: the service passes
      locations third and categories fourth, the reverse of the order in its
      own parameter list. */
  function FilteredArgs(userId: UserId, followedOnly: bool, categories: seq<string>, orderBy: string,
                        locations: seq<string>, search: string, pageIndex: int, pageSize: int): (args: seq<Param>)
    ensures |args| == 8
    ensures args[0] == Text(userId) && args[1] == Flag(followedOnly)
    ensures args[2] == Ids(locations) && args[3] == Ids(categories)
    ensures args[4] == Text(orderBy) && args[5] == Text(search)
    ensures args[6] == Number(pageIndex) && args[7] == Number(pageSize)
  {
    [Text(userId), Flag(followedOnly), Ids(locations), Ids(categories),
     Text(orderBy), Text(search), Number(pageIndex), Number(pageSize)]
  }

  /** The arguments `$1 … $6` of `get_public_designers`: locations,
      categories, orderBy, search, pageIndex, pageSize. */
  function PublicArgs(categories: seq<string>, orderBy: string, locations: seq<string>,
                      search: string, pageIndex: int, pageSize: int): (args: seq<Param>)
    ensures |args| == 6
    ensures args[0] == Ids(locations) && args[1] == Ids(categories)
    ensures args[2] == Text(orderBy) && args[3] == Text(search)
    ensures args[4] == Number(pageIndex) && args[5] == Number(pageSize)
  {
    [Ids(locations), Ids(categories), Text(orderBy), Text(search), Number(pageIndex), Number(pageSize)]
  }

  /** Every argument of the authenticated listing reaches the store function:
      distinct requests give distinct calls, so nothing the caller sends is
      dropped or merged. */
  lemma FilteredArgsInjective(u: UserId, f: bool, c: seq<string>, o: string, l: seq<string>, s: string, i: int, n: int,
                              u': UserId, f': bool, c': seq<string>, o': string, l': seq<string>, s': string, i': int, n': int)
    requires FilteredArgs(u, f, c, o, l, s, i, n) == FilteredArgs(u', f', c', o', l', s', i', n')
    ensures u == u' && f == f' && c == c' && o == o' && l == l' && s == s' && i == i' && n == n'
  {
    var a, a' := FilteredArgs(u, f, c, o, l, s, i, n), FilteredArgs(u', f', c', o', l', s', i', n');
    assert a[0] == a'[0] && a[1] == a'[1] && a[2] == a'[2] && a[3] == a'[3];
    assert a[4] == a'[4] && a[5] == a'[5] && a[6] == a'[6] && a[7] == a'[7];
  }

  /** The shaping both paginated listings apply to the rows they get back. */
  function ShapePage(rows: seq<Row>): (page: Page)
    ensures page.designers == rows
    ensures rows == [] ==> page.total == 0
    ensures rows != [] ==> page.total == rows[0].total
  {
    if |rows| == 0 then Page([], 0) else Page(rows, rows[0].total)
  }

  /** When the store repeats one count on every row, as the listing functions
      do, the page's total is that count on every row it holds. */
  lemma PageTotalMatchesEveryRow(rows: seq<Row>)
    requires forall i, j :: 0 <= i < |rows| && 0 <= j < |rows| ==> rows[i].total == rows[j].total
    ensures forall row :: row in ShapePage(rows).designers ==> row.total == ShapePage(rows).total
  {
  }

  /** `getFilteredDesigners`: call the store function with the eight
      arguments in its positional order and shape the rows it returns. */
  function GetFilteredDesigners(userId: UserId, followedOnly: bool, categories: seq<string>, orderBy: string,
                                locations: seq<string>, search: string, pageIndex: int, pageSize: int,
                                getFilteredDesigners: seq<Param> -> seq<Row>): (page: Page)
    ensures var rows := getFilteredDesigners(FilteredArgs(userId, followedOnly, categories, orderBy,
                                                          locations, search, pageIndex, pageSize));
      && page.designers == rows
      && page.total == (if rows == [] then 0 else rows[0].total)
  {
    ShapePage(getFilteredDesigners(FilteredArgs(userId, followedOnly, categories, orderBy,
                                                locations, search, pageIndex, pageSize)))
  }

  /** `getPublicFilteredDesigners`: the same shaping over the public store
      function and its six arguments. */
  function GetPublicFilteredDesigners(categories: seq<string>, orderBy: string, locations: seq<string>,
                                      search: string, pageIndex: int, pageSize: int,
                                      getPublicDesigners: seq<Param> -> seq<Row>): (page: Page)
    ensures var rows := getPublicDesigners(PublicArgs(categories, orderBy, locations, search, pageIndex, pageSize));
      && page.designers == rows
      && page.total == (if rows == [] then 0 else rows[0].total)
  {
    ShapePage(getPublicDesigners(PublicArgs(categories, orderBy, locations, search, pageIndex, pageSize)))
  }

  /** `getDataByDesigner`: the first row `get_designer_data(designerId,
      userId)` returns, or nothing when it returns none. */
  function GetDataByDesigner(designerId: string, userId: UserId, getDesignerData: seq<Param> -> seq<Row>)
    : (r: Option<Row>)
    ensures var rows := getDesignerData([Text(designerId), Text(userId)]);
      && (r == None <==> rows == [])
      && (r.Some? ==> r.value == rows[0])
  {
    var rows := getDesignerData([Text(designerId), Text(userId)]);
    if |rows| > 0 then Some(rows[0]) else None
  }

  // ---------------------------------------------------------------------------
  // Following toggle
  // ---------------------------------------------------------------------------

  /** One row of `followings`: `userId` follows `designerId`. */
  datatype Following = Following(userId: UserId, designerId: string)

  /** The object `follow` answers with. */
  datatype FollowReply = FollowReply(followed: bool, userId: UserId, designerId: string)

  /** The table after one follow toggle: every row for the pair is deleted
      when there is one, otherwise one row is inserted. */
  function Toggle(rows: multiset<Following>, f: Following): multiset<Following> {
    if f in rows then rows[f := 0] else rows + multiset{f}
  }

  /** A toggle flips whether the pair is present, leaves it with at most one
      row, and leaves every other pair's rows as they were. */
  lemma ToggleFlips(rows: multiset<Following>, f: Following)
    ensures (f in Toggle(rows, f)) <==> f !in rows
    ensures Toggle(rows, f)[f] <= 1
    ensures forall g :: g != f ==> Toggle(rows, f)[g] == rows[g]
  {
  }

  /** Two toggles of the same pair restore which pairs are present, and
      restore the table itself when the pair had at most one row. */
  lemma ToggleTwice(rows: multiset<Following>, f: Following)
    ensures forall g :: g in Toggle(Toggle(rows, f), f) <==> g in rows
    ensures rows[f] <= 1 ==> Toggle(Toggle(rows, f), f) == rows
  {
    var once := Toggle(rows, f);
    var twice := Toggle(once, f);
    ToggleFlips(rows, f);
    ToggleFlips(once, f);
    if rows[f] <= 1 {
      assert forall g :: twice[g] == rows[g];
    }
  }

  /** A toggle keeps the uniqueness of the pairs in `followings`. */
  lemma ToggleKeepsPairsUnique(rows: multiset<Following>, f: Following)
    requires forall g :: rows[g] <= 1
    ensures forall g :: Toggle(rows, f)[g] <= 1
  {
    ToggleFlips(rows, f);
  }

  class FollowingsTable {
    var rows: multiset<Following>

    constructor (initial: multiset<Following>)
      ensures rows == initial
    {
      rows := initial;
    }

    /** `follow`: look the pair up, then delete all its rows or insert one.
        A raising statement leaves the table as it was. */
    method Follow(designerId: string, userId: UserId, fails: bool) returns (r: Outcome<FollowReply>)
      modifies this
      ensures fails ==> rows == old(rows) && r == Failed
      ensures !fails ==> rows == Toggle(old(rows), Following(userId, designerId))
      ensures !fails ==> r == Ok(FollowReply(Following(userId, designerId) in rows, userId, designerId))
    {
      if fails {
        return Failed;
      }
      var pair := Following(userId, designerId);
      var present := pair in rows;
      if present {
        rows := rows[pair := 0];
        r := Ok(FollowReply(false, userId, designerId));
      } else {
        rows := rows + multiset{pair};
        r := Ok(FollowReply(true, userId, designerId));
      }
    }
  }
}
