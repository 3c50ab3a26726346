/** The liked-positions hook: turning the rows of the liked-interactions query
    into `Position` records, removing one position locally after its like was
    deleted, and the hook's state updates around both, guarded by the session.
    The queries themselves are not modelled; their outcomes are parameters. */
module LikedPositions {
  import opened Wrappers
  import opened Positions

  /** The columns selected from `positions`. */
  datatype DbPosition = DbPosition(id: string, name: string, image_url: string, created_at: string)

  /** One row of the liked-interactions query; the joined position may be null. */
  datatype InteractionRow = InteractionRow(position: Option<DbPosition>)

  // ---------------------------------------------------------------------------
  // From query rows to positions.

  /** `.map(item => item.position)` */
  function Project(rows: seq<InteractionRow>): seq<Option<DbPosition>> {
    seq(|rows|, i requires 0 <= i < |rows| => rows[i].position)
  }

  /** `.filter(position => position !== null)`: the non-null positions, in order.
      As many are kept as there are non-null entries. */
  function NonNull(ps: seq<Option<DbPosition>>): (r: seq<DbPosition>)
    ensures |r| == |ps| - multiset(ps)[None]
    ensures forall d :: d in r <==> Some(d) in ps
    decreases |ps|
  {
    if ps == [] then []
    else
      assert ps == [ps[0]] + ps[1..];
      match ps[0]
      case None => NonNull(ps[1..])
      case Some(d) => [d] + NonNull(ps[1..])
  }

  /** The record built for one row: the four selected columns are carried
      over, the text fields the table lacks are empty, the lists are empty. */
  function ToPosition(d: DbPosition): Position {
    Position(
      id := d.id,
      title := d.name,
      company := "",
      location := "",
      jobType := "",
      description := "",
      requirements := [],
      responsibilities := [],
      salary := None,
      postedAt := d.created_at,
      image_url := Some(d.image_url))
  }

  /** `.map(position => ({ ... }))` */
  function ToPositions(ds: seq<DbPosition>): seq<Position> {
    seq(|ds|, k requires 0 <= k < |ds| => ToPosition(ds[k]))
  }

  /** The liked list built from the query rows: never longer than the rows,
      and every record has the empty fields the table does not provide. */
  function LikedFromRows(rows: seq<InteractionRow>): (r: seq<Position>)
    ensures |r| <= |rows|
    ensures forall k :: 0 <= k < |r| ==>
      && r[k].company == "" && r[k].location == "" && r[k].jobType == "" && r[k].description == ""
      && r[k].requirements == [] && r[k].responsibilities == [] && r[k].salary == None && r[k].image_url.Some?
  {
    ToPositions(NonNull(Project(rows)))
  }

  /** The transformation works row by row: the records of `a + b` are those
      of `a` followed by those of `b`, so the query's order (newest first) is kept. */
  lemma {:induction false} LikedFromRowsAppend(a: seq<InteractionRow>, b: seq<InteractionRow>)
    ensures LikedFromRows(a + b) == LikedFromRows(a) + LikedFromRows(b)
  {
    ProjectAppend(a, b);
    NonNullAppend(Project(a), Project(b));
    ToPositionsAppend(NonNull(Project(a)), NonNull(Project(b)));
  }

  /** Taking each row's position distributes over concatenation. */
  lemma ProjectAppend(a: seq<InteractionRow>, b: seq<InteractionRow>)
    ensures Project(a + b) == Project(a) + Project(b)
  {
    assert Project(a + b) == Project(a) + Project(b);
  }

  /** Building the records distributes over concatenation. */
  lemma ToPositionsAppend(a: seq<DbPosition>, b: seq<DbPosition>)
    ensures ToPositions(a + b) == ToPositions(a) + ToPositions(b)
  {
    assert ToPositions(a + b) == ToPositions(a) + ToPositions(b);
  }

  /** A null row yields no record, any other row exactly the record built from it. */
  lemma LikedFromOneRow(row: InteractionRow)
    ensures LikedFromRows([row]) == match row.position
      case None => []
      case Some(d) => [ToPosition(d)]
  {
    assert Project([row]) == [row.position];
    assert [row.position][1..] == [];
  }

  lemma {:induction false} NonNullAppend(a: seq<Option<DbPosition>>, b: seq<Option<DbPosition>>)
    ensures NonNull(a + b) == NonNull(a) + NonNull(b)
    decreases |a|
  {
    if a == [] {
      assert a + b == b;
    } else {
      assert (a + b)[0] == a[0];
      assert (a + b)[1..] == a[1..] + b;
      NonNullAppend(a[1..], b);
    }
  }

  /** The record built from a row: `id` from `id`, `title` from `name`,
      `postedAt` from `created_at`, `image_url` from `image_url`; the text
      fields the table lacks are empty, the lists are empty, no salary. */
  lemma RecordFields(d: DbPosition)
    ensures var p := ToPosition(d);
      && p.id == d.id && p.title == d.name && p.postedAt == d.created_at && p.image_url == Some(d.image_url)
      && p.company == "" && p.location == "" && p.jobType == "" && p.description == ""
      && p.requirements == [] && p.responsibilities == [] && p.salary == None
  {
  }

  /** Distinct rows give distinct records: nothing selected is lost. */
  lemma RecordInjective(a: DbPosition, b: DbPosition)
    requires ToPosition(a) == ToPosition(b)
    ensures a == b
  {
    assert ToPosition(a).id == a.id && ToPosition(a).title == a.name;
    assert ToPosition(a).image_url == Some(a.image_url) && ToPosition(a).postedAt == a.created_at;
  }

  /** With no null rows, every row yields one record, in order. */
  lemma {:induction false} NoNullRows(rows: seq<InteractionRow>)
    requires forall i :: 0 <= i < |rows| ==> rows[i].position.Some?
    ensures |LikedFromRows(rows)| == |rows|
    ensures forall i :: 0 <= i < |rows| ==> LikedFromRows(rows)[i] == ToPosition(rows[i].position.value)
    decreases |rows|
  {
    if rows != [] {
      NoNullRows(rows[1..]);
      assert rows == [rows[0]] + rows[1..];
      LikedFromRowsAppend([rows[0]], rows[1..]);
      LikedFromOneRow(rows[0]);
      var tail := LikedFromRows(rows[1..]);
      assert LikedFromRows(rows) == [ToPosition(rows[0].position.value)] + tail;
      forall i | 1 <= i < |rows|
        ensures LikedFromRows(rows)[i] == ToPosition(rows[i].position.value)
      {
        assert LikedFromRows(rows)[i] == tail[i - 1];
        assert rows[i] == rows[1..][i - 1];
      }
    }
  }

  // ---------------------------------------------------------------------------
  // Local removal.

  /** `prev.filter(pos => pos.id !== positionId)`: no entry with the removed id
      is left, every other entry stays. */
  function RemoveById(ps: seq<Position>, positionId: string): (r: seq<Position>)
    ensures |r| <= |ps|
    ensures |r| == |ps| <==> forall k :: 0 <= k < |ps| ==> ps[k].id != positionId
    ensures forall k :: 0 <= k < |r| ==> r[k].id != positionId
    ensures forall p :: p in r <==> p in ps && p.id != positionId
    decreases |ps|
  {
    if ps == [] then []
    else if ps[0].id != positionId then [ps[0]] + RemoveById(ps[1..], positionId)
    else RemoveById(ps[1..], positionId)
  }

  /** The removal works entry by entry: removing from `a + b` is removing
      from `a`, then from `b`, so the kept entries keep their relative order. */
  lemma {:induction false} RemoveAppend(a: seq<Position>, b: seq<Position>, positionId: string)
    ensures RemoveById(a + b, positionId) == RemoveById(a, positionId) + RemoveById(b, positionId)
    decreases |a|
  {
    if a == [] {
      assert a + b == b;
    } else {
      assert (a + b)[0] == a[0];
      assert (a + b)[1..] == a[1..] + b;
      RemoveAppend(a[1..], b, positionId);
    }
  }

  /** Removing the same id twice is removing it once. */
  lemma {:induction false} RemoveIdempotent(ps: seq<Position>, positionId: string)
    ensures RemoveById(RemoveById(ps, positionId), positionId) == RemoveById(ps, positionId)
    decreases |ps|
  {
    if ps != [] {
      RemoveIdempotent(ps[1..], positionId);
      if ps[0].id != positionId {
        var r := RemoveById(ps, positionId);
        assert r[0] == ps[0] && r[1..] == RemoveById(ps[1..], positionId);
      }
    }
  }

  /** Removing an id no entry has leaves the list as it was. */
  lemma {:induction false} RemoveAbsent(ps: seq<Position>, positionId: string)
    requires forall k :: 0 <= k < |ps| ==> ps[k].id != positionId
    ensures RemoveById(ps, positionId) == ps
    decreases |ps|
  {
    if ps != [] {
      RemoveAbsent(ps[1..], positionId);
      assert [ps[0]] + ps[1..] == ps;
    }
  }

  /** Two removals give the same list in either order. */
  lemma {:induction false} RemoveCommutes(ps: seq<Position>, a: string, b: string)
    ensures RemoveById(RemoveById(ps, a), b) == RemoveById(RemoveById(ps, b), a)
    decreases |ps|
  {
    if ps != [] {
      RemoveCommutes(ps[1..], a, b);
      var ra := RemoveById(ps, a);
      var rb := RemoveById(ps, b);
      if ps[0].id != a { assert ra[0] == ps[0] && ra[1..] == RemoveById(ps[1..], a); }
      if ps[0].id != b { assert rb[0] == ps[0] && rb[1..] == RemoveById(ps[1..], b); }
    }
  }

  // ---------------------------------------------------------------------------
  // The hook's state.

  datatype User = User(id: string)
  datatype Session = Session(user: Option<User>)

  /** `session?.user` is set. */
  predicate SignedIn(session: Option<Session>) {
    session.Some? && session.value.user.Some?
  }

  /** What the liked-interactions query returned. */
  datatype FetchResponse = Rows(rows: seq<InteractionRow>) | FetchFailed

  /** What deleting the like returned. */
  datatype DeleteResponse = Deleted | DeleteFailed

  /** The hook's React state: the liked list and the loading flag. */
  class LikedPositionsHook {
    var likedPositions: seq<Position>
    var loading: bool

    constructor ()
      ensures likedPositions == [] && loading
    {
      likedPositions := [];
      loading := true;
    }

    /** `fetchLikedPositions`, given what the query returned. Without a
        signed-in user it returns at once; otherwise a successful query
        replaces the list, a failed one leaves it, and loading ends either way. */
    method FetchLikedPositions(session: Option<Session>, response: FetchResponse)
      modifies this
      ensures !SignedIn(session) ==> likedPositions == old(likedPositions) && loading == old(loading)
      ensures SignedIn(session) ==> !loading
      ensures SignedIn(session) && response.Rows? ==> likedPositions == LikedFromRows(response.rows)
      ensures SignedIn(session) && response.FetchFailed? ==> likedPositions == old(likedPositions)
    {
      if !SignedIn(session) {
        return;
      }
      if response.Rows? {
        likedPositions := LikedFromRows(response.rows);
      }
      loading := false;
    }

    /** `removePosition`, given what the delete returned. Without a signed-in
        user, or when the delete fails, the list is left as it was; otherwise
        the removed position is filtered out. Loading is never touched. */
    method RemovePosition(session: Option<Session>, positionId: string, response: DeleteResponse)
      modifies this
      ensures loading == old(loading)
      ensures SignedIn(session) && response.Deleted? ==> likedPositions == RemoveById(old(likedPositions), positionId)
      ensures !(SignedIn(session) && response.Deleted?) ==> likedPositions == old(likedPositions)
    {
      if !SignedIn(session) {
        return;
      }
      if response.Deleted? {
        likedPositions := RemoveById(likedPositions, positionId);
      }
    }
  }
}
