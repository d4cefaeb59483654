/** The name a bundle is copied to (Program.cs lines 206-221): the destination
    folder, a backslash and the path of the first directory entry; when a file of
    that name exists, the first free name with a " (i)" suffix, i = 1, 2, ...
    The file system is a finite set of existing names. */
module Naming {
  import opened Wire
  import opened Metadata

  /** The path separator the program inserts (the verbatim string `@"\"`). */
  const Separator: char := '\\'

  // ---------------------------------------------------------------------------
  // Decimal numerals, as string interpolation formats a positive counter

  function Digit(d: nat): (c: char)
    requires d < 10
    ensures '0' <= c <= '9' && c as int - '0' as int == d
  {
    ('0' as int + d) as char
  }

  /** The decimal numeral of `n`, without leading zeros. */
  function Decimal(n: nat): (r: string)
    ensures |r| >= 1
    ensures forall k :: 0 <= k < |r| ==> '0' <= r[k] <= '9'
    ensures r[0] == '0' ==> n == 0
    decreases n
  {
    if n < 10 then [Digit(n)] else Decimal(n / 10) + [Digit(n % 10)]
  }

  /** The value of a numeral; the inverse of `Decimal`. */
  function ParseDecimal(s: string): nat
    requires forall k :: 0 <= k < |s| ==> '0' <= s[k] <= '9'
    decreases |s|
  {
    if |s| == 0 then 0
    else ParseDecimal(s[..|s| - 1]) * 10 + (s[|s| - 1] as int - '0' as int)
  }

  lemma {:induction false} DecimalRoundTrip(n: nat)
    ensures ParseDecimal(Decimal(n)) == n
    decreases n
  {
    if n >= 10 {
      var r := Decimal(n);
      assert r[..|r| - 1] == Decimal(n / 10);
      DecimalRoundTrip(n / 10);
    }
  }

  /** Distinct counters give distinct numerals. */
  lemma DecimalInjective(i: nat, j: nat)
    requires Decimal(i) == Decimal(j)
    ensures i == j
  {
    DecimalRoundTrip(i);
    DecimalRoundTrip(j);
  }

  // ---------------------------------------------------------------------------
  // Candidate names

  /** `name + " (i)"` (line 215). */
  function WithSuffix(name: string, i: nat): (r: string)
    ensures |r| > |name| + 3
  {
    name + " (" + Decimal(i) + ")"
  }

  /** Each counter gives its own candidate. */
  lemma SuffixInjective(name: string, i: nat, j: nat)
    requires WithSuffix(name, i) == WithSuffix(name, j)
    ensures i == j
  {
    var a, b := WithSuffix(name, i), WithSuffix(name, j);
    assert Decimal(i) == a[|name| + 2..|a| - 1];
    assert Decimal(j) == b[|name| + 2..|b| - 1];
    DecimalInjective(i, j);
  }

  /** A path read from the metadata as text: each byte is one character. */
  function Text(path: seq<byte>): (r: string)
    ensures |r| == |path|
    ensures forall k :: 0 <= k < |r| ==> r[k] as int == path[k]
  {
    seq(|path|, k requires 0 <= k < |path| => path[k] as char)
  }

  /** The preferred name (line 206): the destination, a separator and the path
      of the first directory entry; a bundle without directory entries fails. */
  function BaseName(destination: string, t: Tables): (r: Result<string>)
    ensures r.Err? <==> |t.directories| == 0
    ensures r.Err? ==> r.error == EmptyBundle
    ensures r.Ok? ==>
      var name := r.value;
      |name| == |destination| + 1 + |t.directories[0].path| &&
      name[..|destination|] == destination && name[|destination|] == Separator &&
      forall k :: 0 <= k < |t.directories[0].path| ==>
        name[|destination| + 1 + k] as int == t.directories[0].path[k]
  {
    if |t.directories| == 0 then Err(EmptyBundle)
    else Ok(destination + [Separator] + Text(t.directories[0].path))
  }

  // ---------------------------------------------------------------------------
  // The collision search

  /** The candidates tried before counter `i`. */
  function Tried(name: string, i: nat): set<string> {
    set j | 1 <= j < i :: WithSuffix(name, j)
  }

  /** The first counter from `i` on whose candidate is not in `unseen`; each
      taken candidate is struck off, so the search ends. */
  function FirstFree(name: string, unseen: set<string>, i: nat): nat
    decreases unseen
  {
    if WithSuffix(name, i) !in unseen then i
    else FirstFree(name, unseen - {WithSuffix(name, i)}, i + 1)
  }

  /** The name the program copies to, given the names that exist. */
  function ChosenName(name: string, existing: set<string>): (r: string)
    ensures |name| <= |r| && r[..|name|] == name
  {
    if name !in existing then name else WithSuffix(name, FirstFree(name, existing, 1))
  }

  /** Striking the candidates already tried off the existing names does not
      change whether the next candidate exists. */
  lemma NextCandidate(name: string, existing: set<string>, i: nat)
    requires i >= 1
    ensures WithSuffix(name, i) in existing - Tried(name, i) <==> WithSuffix(name, i) in existing
    ensures existing - Tried(name, i) - {WithSuffix(name, i)} == existing - Tried(name, i + 1)
  {
    if WithSuffix(name, i) in Tried(name, i) {
      var j :| 1 <= j < i && WithSuffix(name, j) == WithSuffix(name, i);
      SuffixInjective(name, j, i);
    }
    assert Tried(name, i + 1) == Tried(name, i) + {WithSuffix(name, i)};
  }

  /** The search from counter `i` finds the least free counter, given that
      every counter before `i` was taken. */
  lemma {:induction false} FirstFreeLeast(name: string, existing: set<string>, i: nat)
    requires i >= 1
    requires forall j :: 1 <= j < i ==> WithSuffix(name, j) in existing
    ensures var k := FirstFree(name, existing - Tried(name, i), i);
      k >= i && WithSuffix(name, k) !in existing &&
      forall j :: 1 <= j < k ==> WithSuffix(name, j) in existing
    decreases existing - Tried(name, i)
  {
    NextCandidate(name, existing, i);
    if WithSuffix(name, i) in existing {
      FirstFreeLeast(name, existing, i + 1);
    }
  }

  /** The chosen name is never an existing one; it is the preferred name when
      that is free, and otherwise the candidate with the least free counter. */
  lemma ChosenNameFreshAndLeast(name: string, existing: set<string>)
    ensures ChosenName(name, existing) !in existing
    ensures ChosenName(name, existing) == name <==> name !in existing
    ensures name in existing ==>
      exists i :: i >= 1 && ChosenName(name, existing) == WithSuffix(name, i) &&
        forall j :: 1 <= j < i ==> WithSuffix(name, j) in existing
  {
    if name in existing {
      assert Tried(name, 1) == {};
      assert existing - Tried(name, 1) == existing;
      FirstFreeLeast(name, existing, 1);
      var i := FirstFree(name, existing, 1);
      assert ChosenName(name, existing) == WithSuffix(name, i);
    }
  }

  /** The search of lines 207-221: the preferred name if it does not exist,
      otherwise counters 1, 2, ... until a candidate does not exist. */
  method ChooseName(name: string, existing: set<string>) returns (chosen: string)
    ensures chosen == ChosenName(name, existing)
    ensures chosen !in existing
    ensures chosen == name <==> name !in existing
  {
    ChosenNameFreshAndLeast(name, existing);
    if name !in existing {
      return name;
    }
    assert Tried(name, 1) == {};
    assert existing - Tried(name, 1) == existing;
    var i := 1;
    while WithSuffix(name, i) in existing
      invariant i >= 1
      invariant FirstFree(name, existing - Tried(name, i), i) == FirstFree(name, existing, 1)
      decreases existing - Tried(name, i)
    {
      NextCandidate(name, existing, i);
      i := i + 1;
    }
    NextCandidate(name, existing, i);
    chosen := WithSuffix(name, i);
  }
}
