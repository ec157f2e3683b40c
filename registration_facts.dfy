/**
  What the registration pass guarantees: which MACs end up registered, that
  each device's attributes come from the first row naming its MAC, and that
  the insertion order is the order of those first rows.
*/
module RegistrationFacts {
  import opened Records
  import opened Topology

  /** Some row registers the MAC `m`. */
  ghost predicate NamedByRegisteringRow(rows: seq<Record>, m: string) {
    exists k :: 0 <= k < |rows| && Registers(rows[k]) && rows[k].mac == m
  }

  /** Row `k` is the first row that registers its MAC. */
  predicate FirstRegistration(rows: seq<Record>, k: nat)
    requires k < |rows|
  {
    Registers(rows[k]) && forall j :: 0 <= j < k ==> !(Registers(rows[j]) && rows[j].mac == rows[k].mac)
  }

  lemma RegisterSnoc(p: seq<Record>, r: Record)
    ensures RegisterAll(p + [r]) == RegisterRow(RegisterAll(p), r)
  {
    assert (p + [r])[..|p|] == p;
  }

  /** Whether an old row is a first registration does not depend on rows added after it. */
  lemma FirstRegistrationOld(p: seq<Record>, r: Record, k: nat)
    requires k < |p|
    ensures FirstRegistration(p + [r], k) <==> FirstRegistration(p, k)
  {
    assert forall j :: 0 <= j <= k ==> (p + [r])[j] == p[j];
  }

  lemma FirstRegistrationNew(p: seq<Record>, r: Record)
    requires FirstRegistration(p + [r], |p|)
    ensures !NamedByRegisteringRow(p, r.mac)
  {
    assert forall j :: 0 <= j < |p| ==> (p + [r])[j] == p[j];
  }

  lemma RegisteredMacsStep(p: seq<Record>, r: Record)
    requires forall m :: m in RegisterAll(p).byMac <==> NamedByRegisteringRow(p, m)
    ensures forall m :: m in RegisterAll(p + [r]).byMac <==> NamedByRegisteringRow(p + [r], m)
  {
    var rows := p + [r];
    RegisterSnoc(p, r);
    forall m
      ensures m in RegisterAll(rows).byMac <==> NamedByRegisteringRow(rows, m)
    {
      if NamedByRegisteringRow(p, m) {
        var k :| 0 <= k < |p| && Registers(p[k]) && p[k].mac == m;
        assert rows[k] == p[k];
      }
      if NamedByRegisteringRow(rows, m) {
        var k :| 0 <= k < |rows| && Registers(rows[k]) && rows[k].mac == m;
        if k < |p| {
          assert rows[k] == p[k];
        }
      }
    }
  }

  /** A MAC is registered if and only if some row with a non-empty device type carries that (non-empty) MAC. */
  lemma {:induction false} RegisteredMacs(rows: seq<Record>)
    ensures forall m :: m in RegisterAll(rows).byMac <==> NamedByRegisteringRow(rows, m)
    decreases |rows|
  {
    if rows != [] {
      var p, r := rows[..|rows| - 1], rows[|rows| - 1];
      assert rows == p + [r];
      RegisteredMacs(p);
      RegisteredMacsStep(p, r);
    }
  }

  lemma FirstRowWinsStep(p: seq<Record>, r: Record)
    requires forall k :: 0 <= k < |p| && FirstRegistration(p, k) ==>
               p[k].mac in RegisterAll(p).byMac && RegisterAll(p).byMac[p[k].mac] == NewDevice(p[k])
    requires forall m :: m in RegisterAll(p).byMac ==> NamedByRegisteringRow(p, m)
    ensures forall k :: 0 <= k < |p + [r]| && FirstRegistration(p + [r], k) ==>
               (p + [r])[k].mac in RegisterAll(p + [r]).byMac &&
               RegisterAll(p + [r]).byMac[(p + [r])[k].mac] == NewDevice((p + [r])[k])
  {
    var rows := p + [r];
    var t := RegisterAll(p);
    RegisterSnoc(p, r);
    forall k | 0 <= k < |rows| && FirstRegistration(rows, k)
      ensures rows[k].mac in RegisterRow(t, r).byMac && RegisterRow(t, r).byMac[rows[k].mac] == NewDevice(rows[k])
    {
      if k < |p| {
        FirstRegistrationOld(p, r, k);
        assert rows[k] == p[k];
      } else {
        FirstRegistrationNew(p, r);
        assert r.mac !in t.byMac;
      }
    }
  }

  /**
    First row wins: the device under a MAC is the one built from the first
    row registering that MAC; later rows for the same MAC change nothing.
  */
  lemma {:induction false} FirstRowWins(rows: seq<Record>)
    ensures forall k :: 0 <= k < |rows| && FirstRegistration(rows, k) ==>
              rows[k].mac in RegisterAll(rows).byMac && RegisterAll(rows).byMac[rows[k].mac] == NewDevice(rows[k])
    decreases |rows|
  {
    if rows != [] {
      var p, r := rows[..|rows| - 1], rows[|rows| - 1];
      assert rows == p + [r];
      FirstRowWins(p);
      RegisteredMacs(p);
      FirstRowWinsStep(p, r);
    }
  }

  /** The least index of a row registering `m`, given that one exists. */
  lemma FirstRegisteringRow(rows: seq<Record>, m: string) returns (k: nat)
    requires NamedByRegisteringRow(rows, m)
    ensures k < |rows| && FirstRegistration(rows, k) && rows[k].mac == m
  {
    var i :| 0 <= i < |rows| && Registers(rows[i]) && rows[i].mac == m;
    k := 0;
    while !(Registers(rows[k]) && rows[k].mac == m)
      invariant k <= i
      invariant forall j :: 0 <= j < k ==> !(Registers(rows[j]) && rows[j].mac == m)
      decreases i - k
    {
      k := k + 1;
    }
  }

  /** Every registered device is the one built from the first row that registers its MAC. */
  lemma RegisteredDevicesComeFromFirstRows(rows: seq<Record>)
    ensures forall m :: m in RegisterAll(rows).byMac ==>
              exists k :: 0 <= k < |rows| && FirstRegistration(rows, k) && rows[k].mac == m &&
                          RegisterAll(rows).byMac[m] == NewDevice(rows[k])
  {
    var t := RegisterAll(rows);
    RegisteredMacs(rows);
    FirstRowWins(rows);
    forall m | m in t.byMac
      ensures exists k :: 0 <= k < |rows| && FirstRegistration(rows, k) && rows[k].mac == m &&
                          t.byMac[m] == NewDevice(rows[k])
    {
      var k := FirstRegisteringRow(rows, m);
    }
  }

  /** The insertion order after a prefix of the rows is a prefix of the final order. */
  lemma {:induction false} OrderGrowsByAppending(rows: seq<Record>, i: nat)
    requires i <= |rows|
    ensures var a := RegisterAll(rows[..i]).order;
      |a| <= |RegisterAll(rows).order| && a == RegisterAll(rows).order[..|a|]
    decreases |rows|
  {
    if i < |rows| {
      var p := rows[..|rows| - 1];
      assert p[..i] == rows[..i];
      OrderGrowsByAppending(p, i);
    } else {
      assert rows[..i] == rows;
    }
  }

  /** A row that is the first to register its MAC appends that MAC to the order. */
  lemma FirstRegistrationAppends(rows: seq<Record>, k: nat)
    requires k < |rows| && FirstRegistration(rows, k)
    ensures RegisterAll(rows[..k + 1]).order == RegisterAll(rows[..k]).order + [rows[k].mac]
  {
    var p, r := rows[..k], rows[k];
    assert rows[..k + 1] == p + [r];
    FirstRegistrationNew(p, r);
    RegisteredMacs(p);
    RegisterSnoc(p, r);
  }

  /** A MAC registered by an earlier row is already in the order. */
  lemma EarlierRegistrationListed(rows: seq<Record>, k1: nat, k2: nat)
    requires k1 < k2 <= |rows| && Registers(rows[k1])
    ensures rows[k1].mac in RegisterAll(rows[..k2]).order
  {
    RegisteredMacs(rows[..k2]);
    assert rows[..k2][k1] == rows[k1];
  }

  lemma AppendedAfter(a: seq<string>, b: seq<string>, order: seq<string>, x: string, y: string)
    requires x in a && b == a + [y] && |b| <= |order| && b == order[..|b|]
    ensures exists i1, i2 :: 0 <= i1 < i2 < |order| && order[i1] == x && order[i2] == y
  {
    var i1 :| 0 <= i1 < |a| && a[i1] == x;
    assert b[i1] == x && b[|a|] == y;
    assert order[i1] == b[i1] && order[|a|] == b[|a|];
  }

  /** Devices are ordered by the first row that registers them. */
  lemma RegistrationOrder(rows: seq<Record>, k1: nat, k2: nat)
    requires k1 < k2 < |rows|
    requires FirstRegistration(rows, k1) && FirstRegistration(rows, k2)
    ensures var order := RegisterAll(rows).order;
      exists i1, i2 :: 0 <= i1 < i2 < |order| && order[i1] == rows[k1].mac && order[i2] == rows[k2].mac
  {
    EarlierRegistrationListed(rows, k1, k2);
    FirstRegistrationAppends(rows, k2);
    OrderGrowsByAppending(rows, k2 + 1);
    AppendedAfter(RegisterAll(rows[..k2]).order, RegisterAll(rows[..k2 + 1]).order, RegisterAll(rows).order,
                  rows[k1].mac, rows[k2].mac);
  }
}
