/** The best offer per package id, out of a catalog that may list stable and beta builds. */
module Catalog {
  import opened Packages
  import opened Versions

  /** The row that should be offered rather than the other: stable before beta, then the newer build. */
  ghost predicate Beats(a: Package, b: Package) {
    if a.beta != b.beta then b.beta else Older(Segments(b.version), Segments(a.version))
  }

  lemma BeatsIsNegativelyTransitive(a: Package, b: Package, c: Package)
    requires Beats(a, b) && !Beats(c, b)
    ensures Beats(a, c)
  {
    if a.beta == b.beta == c.beta {
      NewerThanAll(Segments(a.version), Segments(b.version), Segments(c.version));
    }
  }

  /** Row `k` is the first of the rows of `id` that no row of `id` beats. */
  ghost predicate Best(rows: seq<Package>, id: string, k: nat) {
    && k < |rows| && rows[k].id == id
    && (forall j :: 0 <= j < |rows| && rows[j].id == id ==> !Beats(rows[j], rows[k]))
    && (forall j :: 0 <= j < k && rows[j].id == id ==> Beats(rows[k], rows[j]))
  }

  ghost predicate Offered(rows: seq<Package>, id: string) {
    exists k :: 0 <= k < |rows| && rows[k].id == id
  }

  ghost predicate BestOffers(rows: seq<Package>, offered: Offers) {
    && (forall id :: id in offered <==> Offered(rows, id))
    && (forall id :: id in offered ==> exists k: nat :: Best(rows, id, k) && offered[id] == rows[k])
  }

  /** The offers of a catalog: there is exactly one choice of best offers. */
  ghost function OffersOf(rows: seq<Package>): (offered: Offers)
    ensures BestOffers(rows, offered) && KeyedById(offered)
  {
    BestOffersExist(rows);
    var offered :| BestOffers(rows, offered);
    offered
  }

  lemma {:induction false} BestOffersExist(rows: seq<Package>)
    ensures exists offered: Offers :: BestOffers(rows, offered)
  {
    if rows == [] {
      assert BestOffers(rows, map[]);
    } else {
      BestOffersExist(rows[..|rows| - 1]);
      assert rows == rows[..|rows| - 1] + [rows[|rows| - 1]];
      BestOffersExtend(rows[..|rows| - 1], rows[|rows| - 1]);
    }
  }

  lemma BestOffersExtend(rows: seq<Package>, row: Package)
    requires exists offered: Offers :: BestOffers(rows, offered)
    ensures exists offered: Offers :: BestOffers(rows + [row], offered)
  {
    var before: Offers :| BestOffers(rows, before);
    OneMoreRow(rows, row, before,
               if row.id !in before || Beats(row, before[row.id]) then before[row.id := row] else before);
  }

  lemma BestIsUnique(rows: seq<Package>, id: string, k: nat, m: nat)
    requires Best(rows, id, k) && Best(rows, id, m)
    ensures k == m
  {
  }

  /** Each id has one best row, so nothing is left to choose. */
  lemma BestOffersAreUnique(rows: seq<Package>, a: Offers, b: Offers)
    requires BestOffers(rows, a) && BestOffers(rows, b)
    ensures a == b
  {
    assert forall id :: id in a <==> id in b;
    forall id | id in a && id in b ensures a[id] == b[id] {
      var k: nat :| Best(rows, id, k) && a[id] == rows[k];
      var m: nat :| Best(rows, id, m) && b[id] == rows[m];
      BestIsUnique(rows, id, k, m);
    }
  }

  method CatalogById(rows: seq<Package>) returns (offered: Offers)
    ensures BestOffers(rows, offered) && KeyedById(offered)
    ensures offered == OffersOf(rows)
  {
    offered := map[];
    for i := 0 to |rows|
      invariant BestOffers(rows[..i], offered)
    {
      var candidate := rows[i];
      ghost var before := offered;
      if candidate.id !in offered {
        offered := offered[candidate.id := candidate];
      } else {
        var existing := offered[candidate.id];
        if existing.beta != candidate.beta {
          if existing.beta {
            offered := offered[candidate.id := candidate];
          }
        } else {
          var newer := ParsePackageVersion(candidate.version);
          var older := ParsePackageVersion(existing.version);
          var sign := Compare(newer, older);
          if sign > 0 {
            offered := offered[candidate.id := candidate];
          }
        }
      }
      assert offered == before[candidate.id := candidate] || offered == before;
      OneMoreRow(rows[..i], candidate, before, offered);
      assert rows[..i] + [candidate] == rows[..i + 1];
    }
    assert rows[..|rows|] == rows;
    BestOffersAreUnique(rows, offered, OffersOf(rows));
  }

  lemma OneMoreRow(rows: seq<Package>, row: Package, before: Offers, after: Offers)
    requires BestOffers(rows, before)
    requires after == if row.id !in before || Beats(row, before[row.id]) then before[row.id := row] else before
    ensures BestOffers(rows + [row], after)
  {
    OneMoreRowOffers(rows, row);
    forall id | id in after
      ensures exists k: nat :: Best(rows + [row], id, k) && after[id] == (rows + [row])[k]
    {
      if id in before && after[id] == before[id] {
        var k: nat :| Best(rows, id, k) && before[id] == rows[k];
        RowStaysBest(rows, row, id, k);
      } else {
        NewRowIsBest(rows, row, before);
      }
    }
  }

  lemma OneMoreRowOffers(rows: seq<Package>, row: Package)
    ensures forall id :: Offered(rows + [row], id) <==> Offered(rows, id) || id == row.id
  {
    var more := rows + [row];
    assert more[|rows|] == row;
    forall id | Offered(rows, id) ensures Offered(more, id) {
      var k :| 0 <= k < |rows| && rows[k].id == id;
      assert more[k].id == id;
    }
  }

  lemma RowStaysBest(rows: seq<Package>, row: Package, id: string, k: nat)
    requires Best(rows, id, k)
    requires row.id == id ==> !Beats(row, rows[k])
    ensures Best(rows + [row], id, k)
  {
    var more := rows + [row];
    assert forall j :: 0 <= j < |rows| ==> more[j] == rows[j];
  }

  lemma NewRowIsBest(rows: seq<Package>, row: Package, before: Offers)
    requires BestOffers(rows, before)
    requires row.id in before ==> Beats(row, before[row.id])
    ensures Best(rows + [row], row.id, |rows|)
  {
    forall j | 0 <= j < |rows| && rows[j].id == row.id ensures Beats(row, rows[j]) {
      assert Offered(rows, row.id);
      var k: nat :| Best(rows, row.id, k) && before[row.id] == rows[k];
      BeatsIsNegativelyTransitive(row, rows[k], rows[j]);
    }
    RowIsNotBeaten(rows, row, row.id);
  }

  lemma IrreflexiveBeats(a: Package)
    ensures !Beats(a, a)
  {
    if Older(Segments(a.version), Segments(a.version)) {
      OlderIsAsymmetric(Segments(a.version), Segments(a.version));
    }
  }

  lemma AsymmetricBeats(a: Package, b: Package)
    requires Beats(a, b)
    ensures !Beats(b, a)
  {
    if a.beta == b.beta {
      OlderIsAsymmetric(Segments(b.version), Segments(a.version));
    }
  }

  lemma RowIsNotBeaten(rows: seq<Package>, row: Package, id: string)
    requires row.id == id
    requires forall j :: 0 <= j < |rows| && rows[j].id == id ==> Beats(row, rows[j])
    ensures forall j :: 0 <= j <= |rows| && (rows + [row])[j].id == id ==> !Beats((rows + [row])[j], row)
  {
    IrreflexiveBeats(row);
    forall j | 0 <= j < |rows| && rows[j].id == id ensures !Beats(rows[j], row) {
      AsymmetricBeats(row, rows[j]);
    }
  }

  /** A beta row never shadows a stable one, and no build of the offered channel is newer. */
  lemma OfferIsStableAndNewest(rows: seq<Package>, offered: Offers, row: Package)
    requires BestOffers(rows, offered) && row in rows
    ensures row.id in offered
    ensures !row.beta ==> !offered[row.id].beta
    ensures row.beta == offered[row.id].beta ==>
              !Older(Segments(offered[row.id].version), Segments(row.version))
  {
    var j :| 0 <= j < |rows| && rows[j] == row;
    assert Offered(rows, row.id);
    var k: nat :| Best(rows, row.id, k) && offered[row.id] == rows[k];
    assert !Beats(rows[j], rows[k]);
  }

  /** Reordering the catalog can only swap offers of the same channel and the same version. */
  lemma OffersIgnoreRowOrder(rows: seq<Package>, rows': seq<Package>, offered: Offers, offered': Offers)
    requires multiset(rows) == multiset(rows')
    requires BestOffers(rows, offered) && BestOffers(rows', offered')
    ensures offered.Keys == offered'.Keys
    ensures forall id :: id in offered ==>
      && offered[id].beta == offered'[id].beta
      && SameVersion(Segments(offered[id].version), Segments(offered'[id].version))
  {
    SameRows(rows, rows');
    SameIdsOffered(rows, rows');
    forall id | id in offered
      ensures offered[id].beta == offered'[id].beta
      ensures SameVersion(Segments(offered[id].version), Segments(offered'[id].version))
    {
      EquallyGood(rows, rows', offered, offered', id);
    }
  }

  lemma SameIdsOffered(rows: seq<Package>, rows': seq<Package>)
    requires forall row :: row in rows <==> row in rows'
    ensures forall id :: Offered(rows, id) <==> Offered(rows', id)
  {
    forall id ensures Offered(rows, id) <==> Offered(rows', id) {
      if Offered(rows, id) {
        var k :| 0 <= k < |rows| && rows[k].id == id;
        assert rows[k] in rows';
      }
      if Offered(rows', id) {
        var k :| 0 <= k < |rows'| && rows'[k].id == id;
        assert rows'[k] in rows;
      }
    }
  }

  lemma EquallyGood(rows: seq<Package>, rows': seq<Package>, offered: Offers, offered': Offers, id: string)
    requires forall row :: row in rows <==> row in rows'
    requires BestOffers(rows, offered) && BestOffers(rows', offered') && id in offered && id in offered'
    ensures offered[id].beta == offered'[id].beta
    ensures SameVersion(Segments(offered[id].version), Segments(offered'[id].version))
  {
    OfferIsListed(rows, offered, id);
    OfferIsListed(rows', offered', id);
    OfferIsStableAndNewest(rows, offered, offered'[id]);
    OfferIsStableAndNewest(rows', offered', offered[id]);
    VersionsAreTotal(Segments(offered[id].version), Segments(offered'[id].version));
  }

  lemma OfferIsListed(rows: seq<Package>, offered: Offers, id: string)
    requires BestOffers(rows, offered) && id in offered
    ensures offered[id] in rows && offered[id].id == id
  {
    var k: nat :| Best(rows, id, k) && offered[id] == rows[k];
  }

  lemma SameRows(rows: seq<Package>, rows': seq<Package>)
    requires multiset(rows) == multiset(rows')
    ensures forall row :: row in rows <==> row in rows'
  {
    assert forall row :: row in rows <==> row in multiset(rows);
    assert forall row :: row in rows' <==> row in multiset(rows');
  }
}
