/**
 * The `applets` table: one row per applet id (the primary key), holding the
 * serialised plan (`data`) and the serialised outcome of the last run
 * (`lastrun`, NULL until the applet has run).
 */
module Applets {
  import opened Common

  /** The non-key columns of one `applets` row. */
  datatype Applet = Applet(data: Blob, lastrun: Option<Blob>)

  /**
   * One dictionary of the list `applet_gather` returns. A row whose `lastrun`
   * is NULL yields a dictionary WITHOUT the `applet_lastrun` key, so the two
   * shapes are two constructors.
   */
  datatype AppletListing =
    | Listing(appletId: string, appletPlans: Blob)
    | ListingWithLastrun(appletId: string, appletPlans: Blob, appletLastrun: Blob)

  /** The dictionary built for the row `id` holding `a`. */
  function ListingOf(id: string, a: Applet): (r: AppletListing) {
    match a.lastrun
    case None => Listing(id, a.data)
    case Some(l) => ListingWithLastrun(id, a.data, l)
  }

  /** The list mentions each id of `applets` exactly once, and each entry is that row's dictionary. */
  ghost predicate ListsExactly(r: seq<AppletListing>, applets: map<string, Applet>) {
    && (forall i | 0 <= i < |r| :: r[i].appletId in applets && r[i] == ListingOf(r[i].appletId, applets[r[i].appletId]))
    && (forall i, j | 0 <= i < j < |r| :: r[i].appletId != r[j].appletId)
    && (forall id | id in applets :: exists i | 0 <= i < |r| :: r[i].appletId == id)
  }

  /** The ids a listing mentions. */
  function Ids(r: seq<AppletListing>): (ids: set<string>) {
    set i | 0 <= i < |r| :: r[i].appletId
  }

  /** A listing with distinct ids has as many entries as ids. */
  lemma {:induction false} DistinctIdsCount(r: seq<AppletListing>)
    requires forall i, j | 0 <= i < j < |r| :: r[i].appletId != r[j].appletId
    ensures |Ids(r)| == |r|
    decreases |r|
  {
    if r != [] {
      var init := r[..|r| - 1];
      DistinctIdsCount(init);
      assert Ids(r) == Ids(init) + {r[|r| - 1].appletId} by {
        forall id ensures id in Ids(r) <==> id in Ids(init) + {r[|r| - 1].appletId} {
          if id in Ids(r) {
            var i :| 0 <= i < |r| && r[i].appletId == id;
            if i < |init| { assert init[i] == r[i]; }
          }
          if id in Ids(init) {
            var i :| 0 <= i < |init| && init[i].appletId == id;
            assert r[i] == init[i];
          }
        }
      }
      forall i | 0 <= i < |init| ensures init[i].appletId != r[|r| - 1].appletId {
        assert init[i] == r[i];
      }
    }
  }

  /** A complete listing of `applets` has exactly one entry per row. */
  lemma ListsExactlyCount(r: seq<AppletListing>, applets: map<string, Applet>)
    requires ListsExactly(r, applets)
    ensures |r| == |applets|
  {
    DistinctIdsCount(r);
    assert Ids(r) == applets.Keys by {
      forall id | id in applets ensures id in Ids(r) {
        var i :| 0 <= i < |r| && r[i].appletId == id;
      }
    }
  }
}
