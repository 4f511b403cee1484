/** Key names: the order the subkey indexes depend on, the hash and the hint that stand in for a name. */
module Names {

  /** UTF-16 units. */
  type Name = seq<nat>

  /** What a key's own name looks like: not empty, and stored compressed, one byte a unit. */
  ghost predicate KeyName(name: Name)
  {
    |name| > 0 && forall i :: 0 <= i < |name| ==> name[i] < 256
  }

  /** RtlUpcaseUnicodeChar: only 'a' to 'z' have another case. */
  function Upcase(c: nat): nat
  {
    if c < 97 then c else if c <= 122 then c - 32 else c
  }

  function Upcased(name: Name): (r: Name)
    ensures |r| == |name|
  {
    seq(|name|, i requires 0 <= i < |name| => Upcase(name[i]))
  }

  /** The small letters become their capitals, and nothing else changes. */
  lemma UpcaseIs(c: nat)
    ensures 'a' as nat <= c <= 'z' as nat ==> Upcase(c) - 'A' as nat == c - 'a' as nat
    ensures c < 'a' as nat || 'z' as nat < c ==> Upcase(c) == c
  {
  }

  function Sign(x: int): int { if x < 0 then -1 else if x > 0 then 1 else 0 }

  // ----- the order

  /** -1, 0 or 1, as a is before b, is b up to case, or is after b. */
  function Order(a: Name, b: Name): int
  {
    if a == [] || b == [] then Sign(|a| - |b|)
    else if Upcase(a[0]) != Upcase(b[0]) then Sign(Upcase(a[0]) - Upcase(b[0]))
    else Order(a[1..], b[1..])
  }

  /** Up to case, a agrees with b before place k, where it ends or has the smaller unit. */
  ghost predicate PrecedesAt(a: Name, b: Name, k: nat)
  {
    && k <= |a| && k <= |b| && (forall i :: 0 <= i < k ==> Upcase(a[i]) == Upcase(b[i]))
    && (k == |a| < |b| || (k < |a| && k < |b| && Upcase(a[k]) < Upcase(b[k])))
  }

  /** The order of a dictionary. */
  ghost predicate Precedes(a: Name, b: Name)
  {
    exists k: nat :: PrecedesAt(a, b, k)
  }

  lemma {:induction false} OrderIs(a: Name, b: Name)
    ensures Order(a, b) < 0 <==> Precedes(a, b)
    ensures Order(a, b) > 0 <==> Precedes(b, a)
  {
    OrderSwapped(a, b);
    if a == [] || b == [] || Upcase(a[0]) != Upcase(b[0]) {
      if Order(a, b) < 0 { assert PrecedesAt(a, b, 0); }
      if Order(a, b) > 0 { assert PrecedesAt(b, a, 0); }
    } else {
      OrderIs(a[1..], b[1..]);
      OneUnitMore(a, b);
      OneUnitMore(b, a);
    }
  }

  lemma OneUnitMore(a: Name, b: Name)
    requires a != [] && b != [] && Upcase(a[0]) == Upcase(b[0])
    ensures Precedes(a, b) <==> Precedes(a[1..], b[1..])
  {
    hide Upcase;
    if Precedes(a, b) {
      var k: nat :| PrecedesAt(a, b, k);
      assert PrecedesAt(a[1..], b[1..], k - 1);
    }
    if Precedes(a[1..], b[1..]) {
      var k: nat :| PrecedesAt(a[1..], b[1..], k);
      forall i | 0 <= i < k + 1 ensures Upcase(a[i]) == Upcase(b[i]) {
        if i > 0 { assert Upcase(a[1..][i - 1]) == Upcase(b[1..][i - 1]); }
      }
      assert PrecedesAt(a, b, k + 1);
    }
  }

  lemma {:induction false} OrderSwapped(a: Name, b: Name)
    ensures Order(b, a) == -Order(a, b) && -1 <= Order(a, b) <= 1
  {
    if a != [] && b != [] { OrderSwapped(a[1..], b[1..]); }
  }

  lemma {:induction false} OrderTransitive(a: Name, b: Name, c: Name)
    requires Order(a, b) <= 0 && Order(b, c) <= 0
    ensures Order(a, c) <= 0 && (Order(a, b) < 0 || Order(b, c) < 0 ==> Order(a, c) < 0)
  {
    if a != [] && b != [] && c != [] && Upcase(a[0]) == Upcase(b[0]) == Upcase(c[0]) {
      OrderTransitive(a[1..], b[1..], c[1..]);
    }
  }

  /** Names in the same place are the same up to case. */
  lemma {:induction false} OrderEqual(a: Name, b: Name)
    ensures Order(a, b) == 0 <==> Upcased(a) == Upcased(b)
  {
    assert |Upcased(a)| == |a| && |Upcased(b)| == |b|;
    if a == [] && b == [] {
      assert Upcased(a) == Upcased(b);
    }
    if a != [] && b != [] {
      OrderEqual(a[1..], b[1..]);
      assert Upcased(a)[0] == Upcase(a[0]) && Upcased(b)[0] == Upcase(b[0]);
      assert Upcased(a) == [Upcase(a[0])] + Upcased(a[1..]);
      assert Upcased(b) == [Upcase(b[0])] + Upcased(b[1..]);
      assert Upcased(a)[1..] == Upcased(a[1..]) && Upcased(b)[1..] == Upcased(b[1..]);
    }
  }

  /** Names that agree up to k are in the order of what follows. */
  lemma {:induction false} OrderSkips(a: Name, b: Name, k: nat)
    requires k <= |a| && k <= |b| && forall i :: 0 <= i < k ==> Upcase(a[i]) == Upcase(b[i])
    ensures Order(a, b) == Order(a[k..], b[k..])
  {
    if k == 0 {
      assert a[0..] == a && b[0..] == b;
    } else {
      OrderSkips(a[1..], b[1..], k - 1);
      assert a[1..][k - 1..] == a[k..] && b[1..][k - 1..] == b[k..];
    }
  }

  /** CmpCompareCompressedName. */
  method CompareCompressedName(searchName: Name, name: Name) returns (result: int)
    ensures Sign(result) == Order(searchName, name)
    ensures (result < 0 <==> Precedes(searchName, name)) && (result > 0 <==> Precedes(name, searchName))
  {
    OrderIs(searchName, name);
    hide Precedes;
    var i := 0;
    while i < |searchName| && i < |name|
      invariant i <= |searchName| && i <= |name|
      invariant forall k :: 0 <= k < i ==> Upcase(searchName[k]) == Upcase(name[k])
    {
      if searchName[i] != name[i] {
        result := Upcase(searchName[i]) - Upcase(name[i]);
        if result != 0 {
          OrderSkips(searchName, name, i);
          return;
        }
      }
      i := i + 1;
    }
    OrderSkips(searchName, name, i);
    result := |searchName| - |name|;
  }

  // ----- the hash

  /** The hash of a name that starts from another. */
  function Hash(start: nat, name: Name): nat
  {
    if name == [] then start else (Hash(start, name[..|name| - 1]) * 37 + Upcase(name[|name| - 1])) % 0x1_0000_0000
  }

  function PowerOf37(n: nat): nat
  {
    if n == 0 then 1 else 37 * PowerOf37(n - 1)
  }

  /** The units of a name, upcased, as the digits of a number to the base 37, the first one highest. */
  function Digits(name: Name): nat
  {
    if name == [] then 0 else Upcase(name[0]) * PowerOf37(|name| - 1) + Digits(name[1..])
  }

  lemma {:induction false} LastDigit(name: Name)
    requires name != []
    ensures Digits(name) == 37 * Digits(name[..|name| - 1]) + Upcase(name[|name| - 1])
  {
    hide Upcase;
    var n := |name| - 1;
    if n == 0 {
      assert name[..0] == [] && name[1..] == [];
    } else {
      LastDigit(name[1..]);
      assert name[1..][..n - 1] == name[..n][1..];
      var p := PowerOf37(n - 1);
      assert Upcase(name[0]) * (37 * p) == 37 * (Upcase(name[0]) * p);
    }
  }

  /** What the hash of a name is. */
  lemma {:induction false} HashIs(start: nat, name: Name)
    requires start < 0x1_0000_0000
    ensures Hash(start, name) == (start * PowerOf37(|name|) + Digits(name)) % 0x1_0000_0000
  {
    if name != [] {
      var n := |name| - 1;
      HashIs(start, name[..n]);
      LastDigit(name);
      LastStep(start, name);
      hide *;
      StepOfHash(start * PowerOf37(n) + Digits(name[..n]), Upcase(name[n]));
      OnePowerMore(start, PowerOf37(n), Digits(name[..n]), Upcase(name[n]));
    }
  }

  lemma LastStep(start: nat, name: Name)
    requires name != []
    ensures var n := |name| - 1;
      Hash(start, name) == (Hash(start, name[..n]) * 37 + Upcase(name[n])) % 0x1_0000_0000 && PowerOf37(|name|) == 37 * PowerOf37(n)
  {
    hide Upcase;
  }

  lemma OnePowerMore(start: nat, p: nat, x: nat, d: nat)
    ensures 37 * (start * p + x) + d == start * (37 * p) + (37 * x + d)
  {
  }

  lemma StepOfHash(x: nat, d: nat)
    ensures (x % 0x1_0000_0000 * 37 + d) % 0x1_0000_0000 == (37 * x + d) % 0x1_0000_0000
  {
    var q, r := x / 0x1_0000_0000, x % 0x1_0000_0000;
    assert 37 * x + d == r * 37 + d + 0x1_0000_0000 * (37 * q);
  }

  /** The hash is one of the upcased name. */
  lemma {:induction false} HashOfUpcased(start: nat, a: Name, b: Name)
    requires Upcased(a) == Upcased(b)
    ensures Hash(start, a) == Hash(start, b)
  {
    assert |a| == |Upcased(a)| == |b|;
    if a != [] {
      var n := |a| - 1;
      assert Upcased(a)[n] == Upcase(a[n]) && Upcased(b)[n] == Upcase(b[n]);
      assert Upcased(a[..n]) == Upcased(a)[..n] && Upcased(b[..n]) == Upcased(b)[..n];
      HashOfUpcased(start, a[..n], b[..n]);
    }
  }

  /** CmpComputeHashKey, which upcases most letters itself. */
  method ComputeHashKey(start: nat, name: Name) returns (hash: nat)
    ensures hash == Hash(start, name)
  {
    hash := start;
    var i := 0;
    while i < |name|
      invariant i <= |name| && hash == Hash(start, name[..i])
    {
      var value;
      if name[i] >= 97 {
        value := if name[i] < 122 then name[i] - 97 + 65 else Upcase(name[i]);
      } else {
        value := name[i];
      }
      assert name[..i + 1][..i] == name[..i];
      hash := (hash * 37 + value) % 0x1_0000_0000;
      i := i + 1;
    }
    assert name[..i] == name;
  }

  // ----- the hint

  /** How many bytes a hint says: those before its first zero. */
  function Known(hint: seq<nat>): (n: nat)
    ensures n <= |hint| && (forall i :: 0 <= i < n ==> hint[i] != 0) && (n < |hint| ==> hint[n] == 0)
  {
    if hint == [] || hint[0] == 0 then 0 else
      assert forall i :: 0 < i < |hint| ==> hint[i] == hint[1..][i - 1];
      1 + Known(hint[1..])
  }

  /** A hint of four bytes that says how the name starts. */
  ghost predicate HintOf(hint: seq<nat>, name: Name)
  {
    |hint| == 4 && Known(hint) <= |name| && forall i :: 0 <= i < Known(hint) ==> hint[i] == name[i]
  }

  /** Of the first four units of a name, those behind the last that does not fit into a byte; zeros elsewhere. */
  ghost predicate HintIs(hint: seq<nat>, name: Name)
  {
    && |hint| == 4
    && forall k: nat :: k < 4 ==>
         hint[k] == if k < |name| && (forall i :: k <= i < |name| && i < 4 ==> name[i] <= 255) then name[k] else 0
  }

  /** The first bytes of a name, filled in from the last of them on.  A unit that does not fit into a byte
      leaves the hint with a zero in front. */
  method MakeHint(name: Name) returns (hint: seq<nat>)
    requires |name| > 0
    ensures HintIs(hint, name) && HintOf(hint, name)
  {
    hint := [0, 0, 0, 0];
    var j := if |name| < 4 then |name| else 4;
    var n := j;
    while true
      invariant 0 < j <= n <= |name| && n <= 4 && |hint| == 4 && (n < 4 ==> n == |name|)
      invariant forall k :: 0 <= k < 4 ==> hint[k] == if j <= k < n then name[k] else 0
      invariant forall k :: j <= k < n ==> name[k] <= 255
      decreases j
    {
      if name[j - 1] > 255 {
        break;
      }
      hint := hint[j - 1 := name[j - 1]];
      j := j - 1;
      if j == 0 {
        break;
      }
    }
    assert Known(hint) > 0 ==> hint[0] != 0;
    assert n < 4 ==> hint[n] == 0;
  }

  /** What a hint says is what the name it stands for says: a verdict is that of the full comparison. */
  method CompareHint(searchName: Name, hint: seq<nat>) returns (result: int)
    requires |hint| == 4
    ensures result != 0 ==> forall name {:trigger HintOf(hint, name)} :: HintOf(hint, name) ==> Order(searchName, name) == result
  {
    var actualNameLength := 4;
    var i := 0;
    while i < 4
      invariant i <= 4 && forall k :: 0 <= k < i ==> hint[k] != 0
      invariant actualNameLength == 4
    {
      if hint[i] == 0 {
        actualNameLength := i;
        break;
      }
      i := i + 1;
    }
    assert actualNameLength == Known(hint);
    var compareLength := if |searchName| < actualNameLength then |searchName| else actualNameLength;
    i := 0;
    while i < compareLength
      invariant i <= compareLength && forall k :: 0 <= k < i ==> Upcase(searchName[k]) == Upcase(hint[k])
    {
      result := Upcase(searchName[i]) - Upcase(hint[i]);
      if result != 0 {
        forall name | HintOf(hint, name) ensures Order(searchName, name) == Sign(result) {
          OrderSkips(searchName, name, i);
        }
        return Sign(result);
      }
      i := i + 1;
    }
    result := 0;
  }
}
