/** The symbol index of SimpleDescriptorDatabase (descriptor_database.h): finding the stored symbol that
    encloses a given one with a single ordered lookup. */
module DescriptorIndexes {
  import opened Wrappers

  predicate ValidChar(c: char) {
    c == '.' || '0' <= c <= '9' || 'A' <= c <= 'Z' || c == '_' || 'a' <= c <= 'z'
  }

  predicate ValidName(s: string) {
    forall i :: 0 <= i < |s| ==> ValidChar(s[i])
  }

  /** std::string's order. */
  predicate AtMost(a: string, b: string) {
    a == [] || (b != [] && (a[0] < b[0] || (a[0] == b[0] && AtMost(a[1..], b[1..]))))
  }

  /** "foo.bar.baz" and "foo.bar" itself are sub-symbols of "foo.bar"; "foo.barbaz" is not. */
  predicate IsSubSymbol(sub: string, super: string) {
    sub == super || (|super| < |sub| && sub[..|super|] == super && sub[|super|] == '.')
  }

  /** The characters of the documentation, by their codes. */
  lemma ValidChars(c: char)
    ensures ValidChar(c) <==> var k := c as int; k == 46 || 48 <= k <= 57 || 65 <= k <= 90 || k == 95 || 97 <= k <= 122
  {
  }

  /** A sub-symbol is the symbol itself, or goes on behind it with a dot. */
  lemma SubSymbolExactly(sub: string, super: string)
    ensures IsSubSymbol(sub, super) <==> sub == super || exists rest :: sub == super + "." + rest
  {
    if |super| < |sub| && sub[..|super|] == super && sub[|super|] == '.' {
      assert sub == super + "." + sub[|super| + 1..];
    }
    forall rest | sub == super + "." + rest
      ensures sub[..|super|] == super && sub[|super|] == '.'
    {
    }
  }

  predicate FirstDifference(a: string, b: string, i: nat) {
    i < |a| && i < |b| && a[..i] == b[..i] && a[i] < b[i]
  }

  lemma StartSame(a: string, b: string, i: nat)
    requires FirstDifference(a, b, i)
    ensures i == 0 || a[0] == b[0]
  {
    if i != 0 {
      assert a[..i][0] == b[..i][0];
    }
  }

  /** A string is not above another if it is in front of it, or smaller where they first differ. */
  lemma {:induction false} AtMostExactly(a: string, b: string)
    ensures AtMost(a, b) <==> (|a| <= |b| && b[..|a|] == a) || exists i :: FirstDifference(a, b, i)
    decreases |a|
  {
    if a != [] && b != [] && a[0] == b[0] {
      AtMostExactly(a[1..], b[1..]);
      assert a == [a[0]] + a[1..] && b == [b[0]] + b[1..];
      if |a| <= |b| {
        assert b[..|a|] == [b[0]] + b[1..][..|a[1..]|];
      }
      forall i: nat | FirstDifference(a[1..], b[1..], i) ensures FirstDifference(a, b, i + 1) {
        assert a[..i + 1] == [a[0]] + a[1..][..i] && b[..i + 1] == [b[0]] + b[1..][..i];
      }
      forall i: nat | FirstDifference(a, b, i) ensures 0 < i && FirstDifference(a[1..], b[1..], i - 1) {
        assert a[1..][..i - 1] == a[..i][1..] && b[1..][..i - 1] == b[..i][1..];
      }
    } else if a != [] && b != [] {
      if a[0] < b[0] {
        assert FirstDifference(a, b, 0);
      }
      forall i: nat | FirstDifference(a, b, i) ensures i == 0 || a[0] == b[0] {
        StartSame(a, b, i);
      }
      if |a| <= |b| {
        assert b[..|a|][0] == b[0];
      }
    }
  }

  lemma {:induction false} AtMostItself(a: string)
    ensures AtMost(a, a)
  {
    if a != [] {
      AtMostItself(a[1..]);
    }
  }

  lemma {:induction false} AtMostTotal(a: string, b: string)
    ensures AtMost(a, b) || AtMost(b, a)
  {
    if a != [] && b != [] {
      AtMostTotal(a[1..], b[1..]);
    }
  }

  lemma {:induction false} AtMostTransitive(a: string, b: string, c: string)
    requires AtMost(a, b) && AtMost(b, c)
    ensures AtMost(a, c)
  {
    if a != [] && b[0] == a[0] == c[0] {
      AtMostTransitive(a[1..], b[1..], c[1..]);
    }
  }

  lemma {:induction false} AtMostBoth(a: string, b: string)
    requires AtMost(a, b) && AtMost(b, a)
    ensures a == b
  {
    if a != [] {
      AtMostBoth(a[1..], b[1..]);
      assert a == [a[0]] + a[1..] && b == [b[0]] + b[1..];
    }
  }

  lemma {:induction false} PrefixAtMost(a: string, b: string)
    requires |a| <= |b| && b[..|a|] == a
    ensures AtMost(a, b)
  {
    if a != [] {
      assert b[1..][..|a[1..]|] == a[1..];
      assert b[0] == b[..|a|][0];
      PrefixAtMost(a[1..], b[1..]);
    }
  }

  /** What lies between a string and an extension of it starts with it too, and is no further on where the
      extension begins. */
  lemma {:induction false} Between(a: string, x: string, b: string)
    requires |a| <= |b| && b[..|a|] == a && AtMost(a, x) && AtMost(x, b)
    ensures |a| <= |x| && x[..|a|] == a
    ensures |a| < |x| && |a| < |b| ==> x[|a|] <= b[|a|]
  {
    if a != [] {
      assert b[0] == b[..|a|][0] == a[0];
      assert b[1..][..|a[1..]|] == a[1..];
      Between(a[1..], x[1..], b[1..]);
      assert x == [x[0]] + x[1..] && a == [a[0]] + a[1..];
    }
  }

  lemma LowestChar(found: string, i: nat, search: string)
    requires ValidName(found) && i < |found| && i < |search| && found[i] <= search[i] && search[i] == '.'
    ensures found[i] == '.'
  {
    assert ValidChar(found[i]);
  }

  /** A valid name between a symbol and a sub-symbol of it is a sub-symbol of it. */
  lemma WithinIsBetween(key: string, found: string, search: string)
    requires IsSubSymbol(search, key) && AtMost(key, found) && AtMost(found, search) && ValidName(found)
    ensures IsSubSymbol(found, key)
  {
    if search == key {
      AtMostBoth(found, search);
    } else {
      Between(key, found, search);
      if |key| < |found| {
        LowestChar(found, |key|, search);
      }
    }
  }

  /** The keys of by_symbol_ in order, none within another. */
  ghost predicate KeysOk(keys: seq<string>) {
    && (forall i, j :: 0 <= i < j < |keys| ==> AtMost(keys[i], keys[j]) && keys[i] != keys[j])
    && (forall i :: 0 <= i < |keys| ==> ValidName(keys[i]))
    && (forall i, j :: 0 <= i < |keys| && 0 <= j < |keys| && i != j ==> !IsSubSymbol(keys[i], keys[j]))
  }

  /** The first n keys are the ones not above the search key. */
  ghost predicate Splits(keys: seq<string>, search: string, n: nat) {
    && n <= |keys|
    && (forall i :: 0 <= i < n ==> AtMost(keys[i], search))
    && (forall i :: n <= i < |keys| ==> !AtMost(keys[i], search))
  }

  /** A key that encloses the search key is the greatest one not above it, whatever characters the search
      key is made of. */
  lemma MatchIsFound(keys: seq<string>, search: string, n: nat, m: nat)
    requires KeysOk(keys) && Splits(keys, search, n) && m < |keys| && IsSubSymbol(search, keys[m])
    ensures m + 1 == n
  {
    PrefixAtMost(keys[m], search);
    if m < n - 1 {
      WithinIsBetween(keys[m], keys[n - 1], search);
    }
  }

  /** A key within the search key puts the least key above it there as well. */
  lemma NextIsWithin(keys: seq<string>, search: string, n: nat, m: nat)
    requires KeysOk(keys) && Splits(keys, search, n) && m < |keys| && IsSubSymbol(keys[m], search)
    ensures keys[m] == search || (n < |keys| && IsSubSymbol(keys[n], search))
  {
    PrefixAtMost(search, keys[m]);
    if keys[m] != search {
      if m < n {
        AtMostBoth(search, keys[m]);
      }
      AtMostTotal(keys[n], search);
      AtMostItself(keys[m]);
      WithinIsBetween(search, keys[n], keys[m]);
    }
  }

  /** The argument needs the map's invariant ... */
  lemma InvariantIsNeeded()
    ensures var keys := ["a", "a.b"];
            Splits(keys, "a.c", 2) && IsSubSymbol("a.c", keys[0]) && !IsSubSymbol("a.c", keys[1])
  {
  }

  /** ... and it needs '.' to sort lowest in the stored names. */
  lemma LowestDotIsNeeded()
    ensures var keys := ["a", "a-"];
            && Splits(keys, "a.c", 2) && IsSubSymbol("a.c", keys[0]) && !IsSubSymbol("a.c", keys[1])
            && !IsSubSymbol(keys[0], keys[1]) && !IsSubSymbol(keys[1], keys[0])
  {
  }

  class DescriptorIndex<V> {
    var keys: seq<string>
    var values: map<string, V>

    ghost predicate Valid()
      reads this
    {
      KeysOk(keys) && forall s :: s in values <==> s in keys
    }

    constructor ()
      ensures Valid() && values == map[]
    {
      keys, values := [], map[];
    }

    /** How many keys are not above the search key. */
    method LastLessOrEqual(search: string) returns (n: nat)
      requires Valid()
      ensures Splits(keys, search, n)
    {
      var lo, hi := 0, |keys|;
      while lo < hi
        invariant 0 <= lo <= hi <= |keys|
        invariant forall i :: 0 <= i < lo ==> AtMost(keys[i], search)
        invariant forall i :: hi <= i < |keys| ==> !AtMost(keys[i], search)
      {
        var mid := (lo + hi) / 2;
        if AtMost(keys[mid], search) {
          forall i | 0 <= i < mid
            ensures AtMost(keys[i], search)
          {
            AtMostTransitive(keys[i], keys[mid], search);
          }
          lo := mid + 1;
        } else {
          forall i | mid < i < |keys|
            ensures !AtMost(keys[i], search)
          {
            if AtMost(keys[i], search) {
              AtMostTransitive(keys[mid], keys[i], search);
            }
          }
          hi := mid;
        }
      }
      n := lo;
    }

    /** The value of the one symbol that encloses `name`, if there is one. */
    method FindSymbol(name: string) returns (r: Option<V>)
      requires Valid()
      ensures r.Some? <==> exists s :: s in values && IsSubSymbol(name, s)
      ensures forall s :: s in values && IsSubSymbol(name, s) ==> r == Some(values[s])
    {
      var n := LastLessOrEqual(name);
      forall m | 0 <= m < |keys| && IsSubSymbol(name, keys[m])
        ensures m + 1 == n
      {
        MatchIsFound(keys, name, n, m);
      }
      r := if 0 < n && IsSubSymbol(name, keys[n - 1]) then Some(values[keys[n - 1]]) else None;
    }

    /** Refuses a name that is not valid or would break the invariant; only its two neighbours can tell. */
    method AddSymbol(name: string, value: V) returns (ok: bool)
      requires Valid()
      modifies this
      ensures Valid()
      ensures ok <==> ValidName(name) && forall s :: s in old(values) ==> !IsSubSymbol(name, s) && !IsSubSymbol(s, name)
      ensures values == if ok then old(values)[name := value] else old(values)
    {
      var n := LastLessOrEqual(name);
      Neighbours(name, n);
      ok := ValidName(name) && !(0 < n && IsSubSymbol(name, keys[n - 1]))
            && !(n < |keys| && IsSubSymbol(keys[n], name));
      if ok {
        KeyInserted(name, n);
        keys := keys[..n] + [name] + keys[n..];
        values := values[name := value];
      }
    }

    lemma Neighbours(name: string, n: nat)
      requires Valid() && Splits(keys, name, n)
      ensures (exists s :: s in values && IsSubSymbol(name, s)) <==> 0 < n && IsSubSymbol(name, keys[n - 1])
      ensures (exists s :: s in values && IsSubSymbol(s, name)) ==>
                (0 < n && IsSubSymbol(name, keys[n - 1])) || (n < |keys| && IsSubSymbol(keys[n], name))
    {
      forall m | 0 <= m < |keys| && IsSubSymbol(name, keys[m])
        ensures m + 1 == n
      {
        MatchIsFound(keys, name, n, m);
      }
      forall m | 0 <= m < |keys| && IsSubSymbol(keys[m], name)
        ensures keys[m] == name || (n < |keys| && IsSubSymbol(keys[n], name))
      {
        NextIsWithin(keys, name, n, m);
      }
    }

    lemma KeyInserted(name: string, n: nat)
      requires Valid() && Splits(keys, name, n) && ValidName(name)
      requires forall s :: s in values ==> !IsSubSymbol(name, s) && !IsSubSymbol(s, name)
      ensures KeysOk(keys[..n] + [name] + keys[n..])
    {
      var more := keys[..n] + [name] + keys[n..];
      forall i | n <= i < |keys|
        ensures AtMost(name, keys[i])
      {
        AtMostTotal(name, keys[i]);
      }
      assert IsSubSymbol(name, name);
      InsertedOrder(more, name, n);
    }

    lemma Both(a: nat, b: nat)
      requires Valid() && a < b < |keys|
      ensures AtMost(keys[a], keys[b]) && keys[a] != keys[b]
      ensures !IsSubSymbol(keys[a], keys[b]) && !IsSubSymbol(keys[b], keys[a])
    {
    }

    lemma InsertedOrder(more: seq<string>, name: string, n: nat)
      requires Valid() && n <= |keys| && more == keys[..n] + [name] + keys[n..] && ValidName(name)
      requires forall i :: 0 <= i < |keys| ==>
                 keys[i] != name && !IsSubSymbol(name, keys[i]) && !IsSubSymbol(keys[i], name)
      requires forall i :: 0 <= i < n ==> AtMost(keys[i], name)
      requires forall i :: n <= i < |keys| ==> AtMost(name, keys[i])
      ensures KeysOk(more)
    {
      hide AtMost, IsSubSymbol, ValidName;
      forall i | 0 <= i < |more|
        ensures more[i] == if i < n then keys[i] else if i == n then name else keys[i - 1]
      {
      }
      forall i | 0 <= i < |more|
        ensures ValidName(more[i])
      {
      }
      forall i, j | 0 <= i < j < |more|
        ensures AtMost(more[i], more[j]) && more[i] != more[j] && !IsSubSymbol(more[i], more[j])
        ensures !IsSubSymbol(more[j], more[i])
      {
        if i != n && j != n {
          Both(if i < n then i else i - 1, if j < n then j else j - 1);
        }
      }
    }
  }
}
