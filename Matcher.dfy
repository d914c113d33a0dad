/** The nearest-neighbour search of UserSearch.py: parse the stored vectors,
    scan for the smallest Euclidean distance, accept below a threshold. */
module Matcher {
  import opened Wrappers
  import opened Numerics
  import opened Serial
  import Store
  import Features

  /** A match is accepted only when its distance is strictly below this. */
  const Threshold: real := 11.0

  /** The starting value of `min_distance`. */
  const Sentinel: real := 999999999.0

  /** ValueError from `float(token)`, ValueError("Vectors are not the same
      size."), an error raised by the store, or the extractor's exception
      for the query image. */
  datatype SearchError = BadNumber | SizeMismatch | StoreFailure(cause: Store.StoreError) | FaceRejected(face: Features.FaceError)

  /** `(closest_user, min_distance)` */
  datatype Match = Match(user: Store.Listing, distance: real)

  /** `np.sum((vector1 - vector2) ** 2)` */
  function SumSquares(u: seq<real>, v: seq<real>): real
    requires |u| == |v|
  {
    if u == [] then 0.0 else (u[0] - v[0]) * (u[0] - v[0]) + SumSquares(u[1..], v[1..])
  }

  lemma {:induction false} SumSquaresNonNegative(u: seq<real>, v: seq<real>)
    requires |u| == |v|
    ensures 0.0 <= SumSquares(u, v)
  {
    if u != [] {
      SumSquaresNonNegative(u[1..], v[1..]);
    }
  }

  lemma {:induction false} SumSquaresSymmetric(u: seq<real>, v: seq<real>)
    requires |u| == |v|
    ensures SumSquares(u, v) == SumSquares(v, u)
  {
    if u != [] {
      SumSquaresSymmetric(u[1..], v[1..]);
    }
  }

  lemma {:induction false} SumSquaresSelf(u: seq<real>)
    ensures SumSquares(u, u) == 0.0
  {
    if u != [] {
      SumSquaresSelf(u[1..]);
    }
  }

  /** calculate_euclidean_distance on two comma-separated vectors: a token
      that is not a number raises, then vectors of different lengths raise,
      else the root of the summed squared differences. */
  function Distance(f: FloatText, sqrt: real -> real, s1: string, s2: string): (r: Result<real, SearchError>)
    ensures r == Err(BadNumber) <==> DecodeVector(f, s1).None? || DecodeVector(f, s2).None?
    ensures r == Err(SizeMismatch) <==>
      DecodeVector(f, s1).Some? && DecodeVector(f, s2).Some? && |DecodeVector(f, s1).value| != |DecodeVector(f, s2).value|
    ensures r.Ok? ==>
      exists v1, v2 :: DecodeVector(f, s1) == Some(v1) && DecodeVector(f, s2) == Some(v2) && |v1| == |v2| &&
        r.value == sqrt(SumSquares(v1, v2))
  {
    match DecodeVector(f, s1)
    case None => Err(BadNumber)
    case Some(v1) =>
      match DecodeVector(f, s2)
      case None => Err(BadNumber)
      case Some(v2) =>
        if |v1| != |v2| then Err(SizeMismatch) else Ok(sqrt(SumSquares(v1, v2)))
  }

  /** The distance is a non-negative, symmetric function of its arguments,
      and zero from a well-formed vector to itself. */
  lemma DistanceIsMetricLike(f: FloatText, sqrt: real -> real, s1: string, s2: string)
    requires IsSqrt(sqrt)
    ensures Distance(f, sqrt, s1, s2).Ok? ==> 0.0 <= Distance(f, sqrt, s1, s2).value
    ensures Distance(f, sqrt, s1, s2) == Distance(f, sqrt, s2, s1)
    ensures DecodeVector(f, s1).Some? ==> Distance(f, sqrt, s1, s1) == Ok(0.0)
  {
    if DecodeVector(f, s1).Some? {
      SumSquaresSelf(DecodeVector(f, s1).value);
      SqrtZero(sqrt);
    }
    if DecodeVector(f, s1).Some? && DecodeVector(f, s2).Some? {
      var v1, v2 := DecodeVector(f, s1).value, DecodeVector(f, s2).value;
      if |v1| == |v2| {
        SumSquaresNonNegative(v1, v2);
        SumSquaresSymmetric(v1, v2);
      }
    }
  }

  /** Read from vectors written by `",".join(map(str, v))`, the distance is
      the Euclidean distance of the vectors as floats, and a length
      difference is SizeMismatch. */
  lemma DistanceOfEncoded(f: FloatText, sqrt: real -> real, u: seq<real>, v: seq<real>)
    requires FloatTextLaws(f) && |u| >= 1 && |v| >= 1
    ensures |u| == |v| ==> Distance(f, sqrt, EncodeVector(f, u), EncodeVector(f, v)) == Ok(sqrt(SumSquares(Rounded(f, u), Rounded(f, v))))
    ensures |u| != |v| ==> Distance(f, sqrt, EncodeVector(f, u), EncodeVector(f, v)) == Err(SizeMismatch)
  {
    DecodeEncode(f, u);
    DecodeEncode(f, v);
  }

  /** The threshold test on the distance is the test `sum < 121` on the
      squared distance. */
  lemma AcceptIffSquaredBelow(sqrt: real -> real, sumSquares: real)
    requires IsSqrt(sqrt) && 0.0 <= sumSquares
    ensures sqrt(sumSquares) < Threshold <==> sumSquares < 121.0
  {
    SqrtLessIff(sqrt, sumSquares, Threshold);
  }

  /** The distances from the query to every user in order, or the error of
      the first user whose distance raises. */
  function AllDistances(f: FloatText, sqrt: real -> real, query: string, users: seq<Store.Listing>): (r: Result<seq<real>, SearchError>)
    ensures r.Ok? ==> (|r.value| == |users| &&
      forall i :: 0 <= i < |users| ==> Distance(f, sqrt, query, users[i].featureVector) == Ok(r.value[i]))
    ensures r.Err? <==> exists i :: 0 <= i < |users| && Distance(f, sqrt, query, users[i].featureVector).Err?
    ensures r.Err? ==> exists k :: (0 <= k < |users| && Distance(f, sqrt, query, users[k].featureVector) == Err(r.error) &&
      forall j :: 0 <= j < k ==> Distance(f, sqrt, query, users[j].featureVector).Ok?)
  {
    if users == [] then Ok([])
    else
      match Distance(f, sqrt, query, users[0].featureVector)
      case Err(e) =>
        assert Distance(f, sqrt, query, users[0].featureVector) == Err(e);
        Err(e)
      case Ok(d) =>
        match AllDistances(f, sqrt, query, users[1..])
        case Err(e) =>
          LaterError(f, sqrt, query, users, e);
          Err(e)
        case Ok(ds) =>
          AllOk(f, sqrt, query, users, d, ds);
          Ok([d] + ds)
  }

  /** The first error among the later users is the first error of all
      users, when the first user's distance does not raise. */
  lemma LaterError(f: FloatText, sqrt: real -> real, query: string, users: seq<Store.Listing>, e: SearchError)
    requires users != [] && Distance(f, sqrt, query, users[0].featureVector).Ok?
    requires exists k :: (0 <= k < |users| - 1 && Distance(f, sqrt, query, users[1..][k].featureVector) == Err(e) &&
      forall j :: 0 <= j < k ==> Distance(f, sqrt, query, users[1..][j].featureVector).Ok?)
    ensures exists k :: (0 <= k < |users| && Distance(f, sqrt, query, users[k].featureVector) == Err(e) &&
      forall j :: 0 <= j < k ==> Distance(f, sqrt, query, users[j].featureVector).Ok?)
  {
    var k :| 0 <= k < |users| - 1 && Distance(f, sqrt, query, users[1..][k].featureVector) == Err(e) &&
      forall j :: 0 <= j < k ==> Distance(f, sqrt, query, users[1..][j].featureVector).Ok?;
    assert users[k + 1] == users[1..][k];
    forall j | 0 < j < k + 1
      ensures Distance(f, sqrt, query, users[j].featureVector).Ok?
    {
      assert users[j] == users[1..][j - 1];
    }
  }

  /** The first user's distance followed by the later users' distances are
      the distances of all users, none of which raises. */
  lemma AllOk(f: FloatText, sqrt: real -> real, query: string, users: seq<Store.Listing>, d: real, ds: seq<real>)
    requires users != [] && Distance(f, sqrt, query, users[0].featureVector) == Ok(d) && |ds| == |users| - 1
    requires forall i :: 0 <= i < |users| - 1 ==> Distance(f, sqrt, query, users[1..][i].featureVector) == Ok(ds[i])
    ensures forall i :: 0 <= i < |users| ==> Distance(f, sqrt, query, users[i].featureVector) == Ok(([d] + ds)[i])
  {
    forall i | 0 < i < |users|
      ensures Distance(f, sqrt, query, users[i].featureVector) == Ok(([d] + ds)[i])
    {
      assert users[i] == users[1..][i - 1] && ([d] + ds)[i] == ds[i - 1];
    }
  }

  /** `k` holds the smallest distance, and every earlier one is strictly
      larger: the position a scan with strict `<` settles on. */
  ghost predicate EarliestMinimum(ds: seq<real>, k: int) {
    && 0 <= k < |ds|
    && (forall j :: 0 <= j < |ds| ==> ds[k] <= ds[j])
    && (forall j :: 0 <= j < k ==> ds[k] < ds[j])
  }

  /** Ties go to one user only: the earliest. */
  lemma EarliestMinimumUnique(ds: seq<real>, k1: int, k2: int)
    requires EarliestMinimum(ds, k1) && EarliestMinimum(ds, k2)
    ensures k1 == k2
  {
    assert ds[k1] == ds[k2];
  }

  /** The minimum does not depend on the order of the candidates. */
  lemma MinimumOrderIndependent(ds1: seq<real>, ds2: seq<real>, k1: int, k2: int)
    requires multiset(ds1) == multiset(ds2)
    requires EarliestMinimum(ds1, k1) && EarliestMinimum(ds2, k2)
    ensures ds1[k1] == ds2[k2]
  {
    assert ds1[k1] in multiset(ds2);
    assert ds2[k2] in multiset(ds1);
  }

  /** The distance from the query to one user, read as a number (0 when
      it raises). */
  function DistanceTo(f: FloatText, sqrt: real -> real, query: string, u: Store.Listing): real {
    var d := Distance(f, sqrt, query, u.featureVector);
    if d.Ok? then d.value else 0.0
  }

  /** DistanceTo applied to each user in turn. */
  function DistancesTo(f: FloatText, sqrt: real -> real, query: string, users: seq<Store.Listing>): (r: seq<real>)
    ensures |r| == |users|
  {
    if users == [] then [] else [DistanceTo(f, sqrt, query, users[0])] + DistancesTo(f, sqrt, query, users[1..])
  }

  lemma {:induction false} AllDistancesAreDistancesTo(f: FloatText, sqrt: real -> real, query: string, users: seq<Store.Listing>)
    requires AllDistances(f, sqrt, query, users).Ok?
    ensures AllDistances(f, sqrt, query, users).value == DistancesTo(f, sqrt, query, users)
  {
    if users != [] {
      AllDistancesAreDistancesTo(f, sqrt, query, users[1..]);
    }
  }

  /** Users in another order have their distances in that order: the
      multiset of distances is the same. */
  lemma {:induction false} DistancesToPermute(f: FloatText, sqrt: real -> real, query: string, users1: seq<Store.Listing>, users2: seq<Store.Listing>)
    requires multiset(users1) == multiset(users2)
    ensures multiset(DistancesTo(f, sqrt, query, users1)) == multiset(DistancesTo(f, sqrt, query, users2))
    decreases |users1|
  {
    if users1 == [] {
      assert |multiset(users2)| == 0;
    } else {
      var u := users1[0];
      assert u in multiset(users2);
      var j :| 0 <= j < |users2| && users2[j] == u;
      var rest := users2[..j] + users2[j + 1..];
      RemoveAt(users2, j);
      assert multiset(users1) == multiset{u} + multiset(users1[1..]) by {
        assert users1 == [u] + users1[1..];
      }
      assert multiset(users1[1..]) == multiset(users1) - multiset{u};
      assert multiset(rest) == multiset(users2) - multiset{u};
      DistancesToPermute(f, sqrt, query, users1[1..], rest);
      DistancesToRemoveAt(f, sqrt, query, users2, j);
    }
  }

  lemma RemoveAt(s: seq<Store.Listing>, j: int)
    requires 0 <= j < |s|
    ensures multiset(s) == multiset(s[..j] + s[j + 1..]) + multiset{s[j]}
  {
    assert s == s[..j] + [s[j]] + s[j + 1..];
  }

  lemma DistancesToRemoveAt(f: FloatText, sqrt: real -> real, query: string, s: seq<Store.Listing>, j: int)
    requires 0 <= j < |s|
    ensures multiset(DistancesTo(f, sqrt, query, s)) ==
      multiset(DistancesTo(f, sqrt, query, s[..j] + s[j + 1..])) + multiset{DistanceTo(f, sqrt, query, s[j])}
  {
    assert s == s[..j] + ([s[j]] + s[j + 1..]);
    DistancesToSplit(f, sqrt, query, s[..j], [s[j]] + s[j + 1..]);
    DistancesToSplit(f, sqrt, query, [s[j]], s[j + 1..]);
    DistancesToSplit(f, sqrt, query, s[..j], s[j + 1..]);
  }

  lemma {:induction false} DistancesToSplit(f: FloatText, sqrt: real -> real, query: string, a: seq<Store.Listing>, b: seq<Store.Listing>)
    ensures DistancesTo(f, sqrt, query, a + b) == DistancesTo(f, sqrt, query, a) + DistancesTo(f, sqrt, query, b)
  {
    if a == [] {
      assert a + b == b;
    } else {
      assert (a + b)[0] == a[0] && (a + b)[1..] == a[1..] + b;
      DistancesToSplit(f, sqrt, query, a[1..], b);
    }
  }

  /** find_nearest_user's answer for the distances `ds` to `users`: a
      match exactly when some distance is below the threshold, and then the
      earliest user at the smallest distance. */
  ghost predicate Chosen(ds: seq<real>, users: seq<Store.Listing>, r: Option<Match>) {
    && |ds| == |users|
    && (r.Some? <==> exists i :: 0 <= i < |ds| && ds[i] < Threshold)
    && (r.Some? ==> exists k :: EarliestMinimum(ds, k) && r.value == Match(users[k], ds[k]))
  }

  /** Over the same distances in any order, the search accepts or rejects
      alike, and at the same distance; only which of several tied users is
      returned may differ. */
  lemma ChosenOrderIndependent(ds1: seq<real>, users1: seq<Store.Listing>, r1: Option<Match>,
                               ds2: seq<real>, users2: seq<Store.Listing>, r2: Option<Match>)
    requires multiset(ds1) == multiset(ds2)
    requires Chosen(ds1, users1, r1) && Chosen(ds2, users2, r2)
    ensures r1.Some? <==> r2.Some?
    ensures r1.Some? ==> r2.Some? && r1.value.distance == r2.value.distance
  {
    if r1.Some? {
      var i :| 0 <= i < |ds1| && ds1[i] < Threshold;
      assert ds1[i] in multiset(ds2);
      var j :| 0 <= j < |ds2| && ds2[j] == ds1[i];
    }
    if r2.Some? {
      var j :| 0 <= j < |ds2| && ds2[j] < Threshold;
      assert ds2[j] in multiset(ds1);
      var i :| 0 <= i < |ds1| && ds1[i] == ds2[j];
    }
    if r1.Some? && r2.Some? {
      var k1 :| EarliestMinimum(ds1, k1) && r1.value == Match(users1[k1], ds1[k1]);
      var k2 :| EarliestMinimum(ds2, k2) && r2.value == Match(users2[k2], ds2[k2]);
      MinimumOrderIndependent(ds1, ds2, k1, k2);
    }
  }

  /** The rows of the table in any order: the scan fails or succeeds
      alike, the distances are the same multiset, and the answer accepts
      or rejects alike, at the same distance. */
  lemma SearchOrderIndependent(f: FloatText, sqrt: real -> real, query: string,
                               users1: seq<Store.Listing>, users2: seq<Store.Listing>, r1: Option<Match>, r2: Option<Match>)
    requires multiset(users1) == multiset(users2)
    ensures AllDistances(f, sqrt, query, users1).Ok? <==> AllDistances(f, sqrt, query, users2).Ok?
    ensures AllDistances(f, sqrt, query, users1).Ok? ==>
      multiset(AllDistances(f, sqrt, query, users1).value) == multiset(AllDistances(f, sqrt, query, users2).value)
    ensures (AllDistances(f, sqrt, query, users1).Ok? &&
      Chosen(AllDistances(f, sqrt, query, users1).value, users1, r1) && Chosen(AllDistances(f, sqrt, query, users2).value, users2, r2)) ==>
      (r1.Some? <==> r2.Some?) && (r1.Some? ==> r2.Some? && r1.value.distance == r2.value.distance)
  {
    var all1, all2 := AllDistances(f, sqrt, query, users1), AllDistances(f, sqrt, query, users2);
    if all1.Err? {
      var i :| 0 <= i < |users1| && Distance(f, sqrt, query, users1[i].featureVector).Err?;
      assert users1[i] in multiset(users2);
      var j :| 0 <= j < |users2| && users2[j] == users1[i];
    }
    if all2.Err? {
      var j :| 0 <= j < |users2| && Distance(f, sqrt, query, users2[j].featureVector).Err?;
      assert users2[j] in multiset(users1);
      var i :| 0 <= i < |users1| && users1[i] == users2[j];
    }
    if all1.Ok? && all2.Ok? {
      AllDistancesAreDistancesTo(f, sqrt, query, users1);
      AllDistancesAreDistancesTo(f, sqrt, query, users2);
      DistancesToPermute(f, sqrt, query, users1, users2);
      if Chosen(all1.value, users1, r1) && Chosen(all2.value, users2, r2) {
        ChosenOrderIndependent(all1.value, users1, r1, all2.value, users2, r2);
      }
    }
  }

  /** Which of two users at the same accepted distance is returned depends
      on the order of the rows: the earlier one wins. */
  lemma TieGoesToEarlier(a: Store.Listing, b: Store.Listing, d: real, r1: Option<Match>, r2: Option<Match>)
    requires d < Threshold
    requires Chosen([d, d], [a, b], r1) && Chosen([d, d], [b, a], r2)
    ensures r1 == Some(Match(a, d)) && r2 == Some(Match(b, d))
  {
    var k1 :| EarliestMinimum([d, d], k1) && r1.value == Match([a, b][k1], [d, d][k1]);
    var k2 :| EarliestMinimum([d, d], k2) && r2.value == Match([b, a][k2], [d, d][k2]);
    EarliestMinimumUnique([d, d], k1, 0);
    EarliestMinimumUnique([d, d], k2, 0);
  }

  /** Of two users whose stored vectors both make the distance raise, the
      error reported is that of the one stored first. */
  lemma FirstErrorDependsOnOrder(f: FloatText, sqrt: real -> real, query: string, a: Store.Listing, b: Store.Listing)
    requires Distance(f, sqrt, query, a.featureVector).Err? && Distance(f, sqrt, query, b.featureVector).Err?
    ensures AllDistances(f, sqrt, query, [a, b]) == Err(Distance(f, sqrt, query, a.featureVector).error)
    ensures AllDistances(f, sqrt, query, [b, a]) == Err(Distance(f, sqrt, query, b.featureVector).error)
  {
  }

  /** Where the scan stops: with a candidate at `best` (or none, -1, and the
      sentinel), the threshold test on the running minimum picks the right
      answer for the whole list. */
  lemma ScanSettles(ds: seq<real>, users: seq<Store.Listing>, best: int, closest: Option<Store.Listing>, minDistance: real)
    requires |ds| == |users|
    requires closest.None? ==> minDistance == Sentinel && forall j :: 0 <= j < |ds| ==> Sentinel <= ds[j]
    requires closest.Some? ==>
      && 0 <= best < |ds| && closest.value == users[best] && ds[best] == minDistance
      && (forall j :: 0 <= j < |ds| ==> minDistance <= ds[j])
      && (forall j :: 0 <= j < best ==> minDistance < ds[j])
    ensures Chosen(ds, users, if minDistance < Threshold then Some(Match(closest.value, minDistance)) else None)
  {
    if minDistance < Threshold {
      assert ds[best] < Threshold;
      assert EarliestMinimum(ds, best);
    }
  }

  /** The loop of find_nearest_user over the rows of get_all_users. */
  method NearestAmong(f: FloatText, sqrt: real -> real, query: string, users: seq<Store.Listing>)
    returns (r: Result<Option<Match>, SearchError>)
    ensures AllDistances(f, sqrt, query, users).Err? ==> r == Err(AllDistances(f, sqrt, query, users).error)
    ensures AllDistances(f, sqrt, query, users).Ok? ==> r.Ok? && Chosen(AllDistances(f, sqrt, query, users).value, users, r.value)
  {
    var minDistance := Sentinel;
    var closest: Option<Store.Listing> := None;
    ghost var best := -1;
    ghost var ds: seq<real> := [];
    var i := 0;
    while i < |users|
      invariant 0 <= i <= |users| && |ds| == i
      invariant forall j :: 0 <= j < i ==> Distance(f, sqrt, query, users[j].featureVector) == Ok(ds[j])
      invariant closest.None? ==> minDistance == Sentinel && forall j :: 0 <= j < i ==> Sentinel <= ds[j]
      invariant closest.Some? ==>
        && 0 <= best < i && closest.value == users[best] && ds[best] == minDistance && minDistance < Sentinel
        && (forall j :: 0 <= j < i ==> minDistance <= ds[j])
        && (forall j :: 0 <= j < best ==> minDistance < ds[j])
    {
      var d := Distance(f, sqrt, query, users[i].featureVector);
      if d.Err? {
        return Err(d.error);
      }
      if d.value < minDistance {
        minDistance := d.value;
        closest := Some(users[i]);
        best := i;
      }
      ds := ds + [d.value];
      i := i + 1;
    }
    var all := AllDistances(f, sqrt, query, users);
    assert all.Ok? && all.value == ds;
    ScanSettles(ds, users, best, closest, minDistance);
    if minDistance < Threshold {
      return Ok(Some(Match(closest.value, minDistance)));
    }
    return Ok(None);
  }

  /** The result of find_nearest_user for a store whose file was `file`
      and whose rows are `rows`, when the SELECT fails exactly if `fault`:
      the store's error, else the scan's answer. */
  ghost predicate Searched(c: Store.Cipher, file: Store.DbFile, rows: seq<Store.User>, fault: bool, f: FloatText,
                           sqrt: real -> real, query: string, r: Result<Option<Match>, SearchError>)
  {
    var e := Store.ReadError(c, file, fault);
    && (e.Some? ==> r == Err(StoreFailure(e.value)))
    && (e.None? ==>
         var users := Store.Listings(rows);
         match AllDistances(f, sqrt, query, users)
         case Err(d) => r == Err(d)
         case Ok(ds) => r.Ok? && Chosen(ds, users, r.value))
  }

  /** find_nearest_user: reads the table through get_all_users, which
      changes no row, then scans it. */
  method FindNearestUser(db: Store.DatabaseManager, f: FloatText, sqrt: real -> real, featureVector: string, fault: bool)
    returns (r: Result<Option<Match>, SearchError>)
    requires db.Valid()
    modifies db`file
    ensures db.Valid() && db.rows == old(db.rows) && db.lastId == old(db.lastId)
    ensures db.file == Store.FileAfterRead(db.cipher, old(db.file), fault)
    ensures Searched(db.cipher, old(db.file), db.rows, fault, f, sqrt, featureVector, r)
  {
    var all := db.GetAllUsers(fault);
    if all.Err? {
      return Err(StoreFailure(all.error));
    }
    r := NearestAmong(f, sqrt, featureVector, all.value);
  }

  /** UserSearch's constructor, from the point where its DatabaseManager
      exists: the query image's vector, comma-joined, is searched for; an
      extractor exception aborts before get_all_users is called. */
  method Identify(ui: Features.Identifier, db: Store.DatabaseManager, f: FloatText, image: Features.Frame, fault: bool)
    returns (nearest: Result<Option<Match>, SearchError>)
    requires Features.Extractable(ui, image) && db.Valid()
    modifies db`file
    ensures db.Valid() && db.rows == old(db.rows) && db.lastId == old(db.lastId)
    ensures Features.Extracted(ui, image).Err? ==>
      nearest == Err(FaceRejected(Features.Extracted(ui, image).error)) && db.file == old(db.file)
    ensures Features.Extracted(ui, image).Ok? ==>
      && db.file == Store.FileAfterRead(db.cipher, old(db.file), fault)
      && Searched(db.cipher, old(db.file), db.rows, fault, f, ui.sqrt, EncodeVector(f, Features.Extracted(ui, image).value), nearest)
  {
    var extraction := Features.ExtractFeatureVector(ui, image);
    if extraction.Err? {
      return Err(FaceRejected(extraction.error));
    }
    var userVector := EncodeVector(f, extraction.value);
    nearest := FindNearestUser(db, f, ui.sqrt, userVector, fault);
  }

  /** A stored vector written from the very numbers of the query is at
      distance 0, so the search accepts, and at distance 0. */
  lemma {:induction false} IdenticalVectorAccepted(f: FloatText, sqrt: real -> real, v: seq<real>, users: seq<Store.Listing>, i: nat)
    requires FloatTextLaws(f) && IsSqrt(sqrt) && |v| >= 1
    requires i < |users| && users[i].featureVector == EncodeVector(f, v)
    requires AllDistances(f, sqrt, EncodeVector(f, v), users).Ok?
    ensures AllDistances(f, sqrt, EncodeVector(f, v), users).value[i] == 0.0
    ensures forall k :: EarliestMinimum(AllDistances(f, sqrt, EncodeVector(f, v), users).value, k) ==>
      AllDistances(f, sqrt, EncodeVector(f, v), users).value[k] == 0.0
    ensures forall r :: Chosen(AllDistances(f, sqrt, EncodeVector(f, v), users).value, users, r) ==>
      r.Some? && r.value.distance == 0.0
  {
    var q := EncodeVector(f, v);
    var ds := AllDistances(f, sqrt, q, users).value;
    DecodeEncode(f, v);
    DistanceIsMetricLike(f, sqrt, q, q);
    assert ds[i] == 0.0;
    forall j | 0 <= j < |ds|
      ensures 0.0 <= ds[j]
    {
      DistanceIsMetricLike(f, sqrt, q, users[j].featureVector);
    }
    forall r | Chosen(ds, users, r)
      ensures r.Some? && r.value.distance == 0.0
    {
      assert 0 <= i < |ds| && ds[i] < Threshold;
      var k :| EarliestMinimum(ds, k) && r.value == Match(users[k], ds[k]);
      assert ds[k] <= ds[i];
    }
  }
}
