/**
 * The station inventory and the deployment plan built from it: the rows
 * with usable coordinates, the rows of the selected district in inventory
 * order, whether that district holds a core-tier station, and the action
 * to take across its stations.
 */
module Stations {
  import opened Wrappers
  import Decision

  /** One inventory row; a coordinate that did not parse as a number is None. */
  datatype Station = Station(id: string, district: string, lat: Option<real>, lon: Option<real>, tier: string)

  const CoreTier: string := "Tier-1-Core"

  /** `dropna(subset=['lat', 'lon'])`: keep the rows whose two coordinates both parsed, in order. */
  function DropMissingCoords(rows: seq<Station>): (kept: seq<Station>)
    ensures forall s :: s in kept <==> s in rows && s.lat.Some? && s.lon.Some?
    ensures |kept| <= |rows|
  {
    if rows == [] then []
    else (if rows[0].lat.Some? && rows[0].lon.Some? then [rows[0]] else []) + DropMissingCoords(rows[1..])
  }

  /** `inventory[inventory['district'] == district]`. */
  function LocalStations(inventory: seq<Station>, district: string): (local: seq<Station>)
    ensures forall s :: s in local <==> s in inventory && s.district == district
    ensures |local| <= |inventory|
  {
    if inventory == [] then []
    else (if inventory[0].district == district then [inventory[0]] else []) + LocalStations(inventory[1..], district)
  }

  /** The `tier` column of a table, in order. */
  function Tiers(rows: seq<Station>): (ts: seq<string>)
    ensures |ts| == |rows|
    ensures forall i :: 0 <= i < |rows| ==> ts[i] == rows[i].tier
  {
    if rows == [] then [] else [rows[0].tier] + Tiers(rows[1..])
  }

  /** `"Tier-1-Core" in local_stations['tier'].values`. */
  function IsCoreZone(local: seq<Station>): (core: bool)
    ensures core <==> exists i :: 0 <= i < |local| && local[i].tier == CoreTier
  {
    CoreTier in Tiers(local)
  }

  /** The plan shown under the forecast. */
  datatype Plan =
    | NoStationData(district: string)
    | Deployment(coreZone: bool, action: string, stationCount: nat)

  /** With no row for the district there is only a warning; otherwise the flag, the action and the row count. */
  function DeploymentPlan(inventory: seq<Station>, district: string, finalState: int): (p: Plan)
    ensures p.NoStationData? ==> p.district == district
    ensures p.Deployment? ==> 1 <= p.stationCount <= |inventory| && p.action == Decision.ActionPlan(finalState)
  {
    var local := LocalStations(inventory, district);
    if local == [] then NoStationData(district)
    else Deployment(IsCoreZone(local), Decision.ActionPlan(finalState), |local|)
  }

  /** Filtering by district keeps inventory order: it distributes over concatenation. */
  lemma {:induction false} LocalStationsAppend(a: seq<Station>, b: seq<Station>, district: string)
    ensures LocalStations(a + b, district) == LocalStations(a, district) + LocalStations(b, district)
  {
    if a != [] {
      assert (a + b)[1..] == a[1..] + b;
      LocalStationsAppend(a[1..], b, district);
    } else {
      assert a + b == b;
    }
  }

  /** Dropping rows without coordinates keeps inventory order: it distributes over concatenation. */
  lemma {:induction false} DropMissingCoordsAppend(a: seq<Station>, b: seq<Station>)
    ensures DropMissingCoords(a + b) == DropMissingCoords(a) + DropMissingCoords(b)
  {
    if a != [] {
      var head := if a[0].lat.Some? && a[0].lon.Some? then [a[0]] else [];
      assert (a + b)[0] == a[0] && (a + b)[1..] == a[1..] + b;
      assert DropMissingCoords(a + b) == head + DropMissingCoords(a[1..] + b);
      DropMissingCoordsAppend(a[1..], b);
      assert DropMissingCoords(a) == head + DropMissingCoords(a[1..]);
    } else {
      assert a + b == b;
    }
  }

  /** Dropping rows from a table whose rows all have both coordinates returns it unchanged. */
  lemma {:induction false} DropMissingCoordsAll(rows: seq<Station>)
    requires forall i :: 0 <= i < |rows| ==> rows[i].lat.Some? && rows[i].lon.Some?
    ensures DropMissingCoords(rows) == rows
  {
    if rows != [] {
      DropMissingCoordsAll(rows[1..]);
    }
  }

  /** Filtering by district twice is filtering once. */
  lemma {:induction false} LocalStationsIdempotent(inventory: seq<Station>, district: string)
    ensures LocalStations(LocalStations(inventory, district), district) == LocalStations(inventory, district)
  {
    if inventory != [] {
      var head := if inventory[0].district == district then [inventory[0]] else [];
      LocalStationsAppend(head, LocalStations(inventory[1..], district), district);
      LocalStationsIdempotent(inventory[1..], district);
    }
  }

  /** Filtering a table whose rows all belong to the district returns it unchanged. */
  lemma {:induction false} LocalStationsAll(inventory: seq<Station>, district: string)
    requires forall i :: 0 <= i < |inventory| ==> inventory[i].district == district
    ensures LocalStations(inventory, district) == inventory
  {
    if inventory != [] {
      LocalStationsAll(inventory[1..], district);
    }
  }

  /** The district is a core zone exactly when some inventory row of that district has the core tier. */
  lemma CoreZoneIff(inventory: seq<Station>, district: string)
    ensures IsCoreZone(LocalStations(inventory, district)) <==>
      exists i :: 0 <= i < |inventory| && inventory[i].district == district && inventory[i].tier == CoreTier
  {
    var local := LocalStations(inventory, district);
    if IsCoreZone(local) {
      var k :| 0 <= k < |local| && Tiers(local)[k] == CoreTier;
      assert local[k] in local;
      var i :| 0 <= i < |inventory| && inventory[i] == local[k];
    }
    if exists i :: 0 <= i < |inventory| && inventory[i].district == district && inventory[i].tier == CoreTier {
      var i :| 0 <= i < |inventory| && inventory[i].district == district && inventory[i].tier == CoreTier;
      assert inventory[i] in local;
      var k :| 0 <= k < |local| && local[k] == inventory[i];
      assert Tiers(local)[k] == CoreTier;
    }
  }

  /**
   * The plan is a warning exactly when the inventory has no row for the
   * district; otherwise it counts those rows, raises the core-zone flag
   * exactly when one of them is core tier, and carries the action of the
   * final state.
   */
  lemma DeploymentPlanMeaning(inventory: seq<Station>, district: string, finalState: int)
    ensures DeploymentPlan(inventory, district, finalState).NoStationData? <==>
      forall i :: 0 <= i < |inventory| ==> inventory[i].district != district
    ensures DeploymentPlan(inventory, district, finalState).Deployment? ==>
      DeploymentPlan(inventory, district, finalState) ==
        Deployment(exists i :: 0 <= i < |inventory| && inventory[i].district == district && inventory[i].tier == CoreTier,
                   Decision.ActionPlan(finalState), |LocalStations(inventory, district)|)
  {
    var local := LocalStations(inventory, district);
    CoreZoneIff(inventory, district);
    if local != [] {
      assert local[0] in local;
    }
    if exists i :: 0 <= i < |inventory| && inventory[i].district == district {
      var i :| 0 <= i < |inventory| && inventory[i].district == district;
      assert inventory[i] in local;
    }
  }
}
