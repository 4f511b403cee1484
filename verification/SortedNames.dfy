/** Ascending sequences of names, and the place of a name in one. */
module SortedNames {
  import opened Names

  ghost predicate Before(a: Name, b: Name) { Order(a, b) < 0 }

  ghost predicate Ascending(names: seq<Name>)
  {
    forall i, j {:trigger Before(names[i], names[j])} :: 0 <= i < j < |names| ==> Before(names[i], names[j])
  }

  /** The first n names are before this one. */
  ghost predicate Below(names: seq<Name>, n: nat, name: Name)
  {
    n <= |names| && forall k {:trigger names[k]} :: 0 <= k < n ==> Before(names[k], name)
  }

  /** The names from n on are after this one. */
  ghost predicate Above(names: seq<Name>, n: nat, name: Name)
  {
    forall k {:trigger names[k]} :: n <= k < |names| ==> Before(name, names[k])
  }

  lemma BelowEntry(names: seq<Name>, m: nat, name: Name)
    requires Ascending(names) && m < |names| && Order(name, names[m]) >= 0
    ensures Below(names, m, name) && (Order(name, names[m]) > 0 ==> Below(names, m + 1, name))
  {
    OrderSwapped(name, names[m]);
    forall k | 0 <= k < m ensures Before(names[k], name) {
      assert Before(names[k], names[m]);
      OrderTransitive(names[k], names[m], name);
    }
  }

  lemma AboveEntry(names: seq<Name>, m: nat, name: Name)
    requires Ascending(names) && m < |names| && Order(name, names[m]) <= 0
    ensures Above(names, m + 1, name) && (Order(name, names[m]) < 0 ==> Above(names, m, name))
  {
    forall k | m < k < |names| ensures Before(name, names[k]) {
      assert Before(names[m], names[k]);
      OrderTransitive(name, names[m], names[k]);
    }
  }

  /** What one comparison says about a whole ascending sequence. */
  lemma Compared(names: seq<Name>, i: nat, name: Name)
    requires Ascending(names) && i < |names|
    ensures Order(name, names[i]) >= 0 ==> Below(names, i, name)
    ensures Order(name, names[i]) > 0 ==> Below(names, i + 1, name)
    ensures Order(name, names[i]) <= 0 ==> Above(names, i + 1, name)
    ensures Order(name, names[i]) < 0 ==> Above(names, i, name)
  {
    if Order(name, names[i]) >= 0 { BelowEntry(names, i, name); }
    if Order(name, names[i]) <= 0 { AboveEntry(names, i, name); }
  }

  lemma BelowSays(names: seq<Name>, i: nat, name: Name)
    requires Below(names, i + 1, name)
    ensures Order(name, names[i]) > 0
  {
    assert Before(names[i], name);
    OrderSwapped(names[i], name);
  }

  lemma AboveSays(names: seq<Name>, m: nat, i: nat, name: Name)
    requires Above(names, m, name) && m <= i < |names|
    ensures Order(name, names[i]) < 0
  {
    assert Before(name, names[i]);
  }

  lemma BelowBound(names: seq<Name>, m: nat, i: nat, name: Name)
    requires Below(names, m, name) && i < |names| && Order(name, names[i]) <= 0
    ensures m <= i
  {
    OrderSwapped(names[i], name);
  }

  lemma BelowAbove(names: seq<Name>, m: nat, n: nat, name: Name)
    requires Below(names, m, name) && Above(names, n, name)
    ensures m <= n
  {
    if n < m { OrderSwapped(names[n], name); }
  }

  lemma BelowFewer(names: seq<Name>, m: nat, n: nat, name: Name)
    requires Below(names, n, name) && m <= n
    ensures Below(names, m, name)
  {
  }

  lemma AboveFewer(names: seq<Name>, m: nat, n: nat, name: Name)
    requires Above(names, m, name) && m <= n
    ensures Above(names, n, name)
  {
  }

  /** What is below a name or above it is not that name. */
  lemma NotAmong(names: seq<Name>, m: nat, n: nat, k: nat, name: Name)
    requires Below(names, m, name) && Above(names, n, name) && k < |names| && (k < m || n <= k)
    ensures Order(name, names[k]) != 0 && (k < m ==> Order(name, names[k]) > 0) && (n <= k ==> Order(name, names[k]) < 0)
  {
    OrderSwapped(name, names[k]);
  }

  ghost function Inserted(names: seq<Name>, i: nat, name: Name): seq<Name>
    requires i <= |names|
  {
    names[..i] + [name] + names[i..]
  }

  lemma InsertedAscending(names: seq<Name>, i: nat, name: Name)
    requires Ascending(names) && Below(names, i, name) && Above(names, i, name)
    ensures Ascending(Inserted(names, i, name))
  {
    hide Order;
    var r := Inserted(names, i, name);
    forall j, k | 0 <= j < k < |r| ensures Before(r[j], r[k]) {
      var j' := if j < i then j else j - 1;
      var k' := if k < i then k else k - 1;
      assert r[j] == if j == i then name else names[j'];
      assert r[k] == if k == i then name else names[k'];
      assert j != i && k != i ==> Before(names[j'], names[k']);
    }
  }

  lemma RemovedAscending(names: seq<Name>, i: nat)
    requires Ascending(names) && i < |names|
    ensures Ascending(names[..i] + names[i + 1..])
  {
    hide Order;
    var r := names[..i] + names[i + 1..];
    forall j, k | 0 <= j < k < |r| ensures Before(r[j], r[k]) {
      assert Before(names[if j < i then j else j + 1], names[if k < i then k else k + 1]);
    }
  }

  /** An ascending sequence holds a name once. */
  lemma OnlyOnce(names: seq<Name>, i: nat, j: nat)
    requires Ascending(names) && i < |names| && j < |names| && Order(names[i], names[j]) == 0
    ensures i == j
  {
    OrderSwapped(names[i], names[j]);
    assert i < j ==> Before(names[i], names[j]);
    assert j < i ==> Before(names[j], names[i]);
  }

  /** Part of an ascending sequence. */
  lemma PartAscending(names: seq<Name>, i: nat, j: nat)
    requires Ascending(names) && i <= j <= |names|
    ensures Ascending(names[i..j])
  {
    hide Order;
    forall a, b | 0 <= a < b < j - i ensures Before(names[i..j][a], names[i..j][b]) {
      assert Before(names[i + a], names[i + b]);
    }
  }
}
