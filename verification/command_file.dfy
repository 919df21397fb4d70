/** The lookups of `XmlCommandFile` over the definitions it loaded, in file
    order. The protocol category and group a definition is compared with are
    read through accessors the definition classes do not declare, so they are
    parameters here; the comparison is identity of enum constants, which is
    equality of values. */
module CommandFile {
  import opened Outcomes
  import opened Commands

  /** The definitions whose attribute is `x`, in order: the shared loop of
      `findByCategory` and `findByGroup`. */
  function FindWhere<M, X(==)>(content: seq<M>, attr: M -> X, x: X): (r: seq<M>)
    ensures |r| <= |content|
    ensures forall k :: 0 <= k < |r| ==> attr(r[k]) == x && r[k] in content
    ensures forall k :: 0 <= k < |content| && attr(content[k]) == x ==> content[k] in r
    decreases |content|
  {
    if |content| == 0 then []
    else
      var rest := FindWhere(content[1..], attr, x);
      assert forall k :: 1 <= k < |content| ==> content[k] == content[1..][k - 1];
      if attr(content[0]) == x then
        var r := [content[0]] + rest;
        assert forall k :: 1 <= k < |r| ==> r[k] == rest[k - 1];
        r
      else rest
  }

  /** The scan splits over a concatenation of files. */
  lemma {:induction false} FindWhereAppend<M, X>(a: seq<M>, b: seq<M>, attr: M -> X, x: X)
    ensures FindWhere(a + b, attr, x) == FindWhere(a, attr, x) + FindWhere(b, attr, x)
    decreases |a|
  {
    if |a| == 0 {
      assert a + b == b;
    } else {
      var ab := a + b;
      assert ab[1..] == a[1..] + b;
      assert ab[0] == a[0];
      FindWhereAppend(a[1..], b, attr, x);
      var head := if attr(a[0]) == x then [a[0]] else [];
      assert FindWhere(ab, attr, x) == head + FindWhere(a[1..] + b, attr, x);
      assert FindWhere(a, attr, x) == head + FindWhere(a[1..], attr, x);
      assert head + (FindWhere(a[1..], attr, x) + FindWhere(b, attr, x)) ==
        (head + FindWhere(a[1..], attr, x)) + FindWhere(b, attr, x);
    }
  }

  /** One definition contributes itself or nothing; with the split over a
      concatenation this fixes the result as the ordered filter. */
  lemma FindWhereOne<M, X>(m: M, attr: M -> X, x: X)
    ensures FindWhere([m], attr, x) == (if attr(m) == x then [m] else [])
  {
    assert [m][1..] == [];
  }

  /** `findByCategory`: `category` reads a definition's protocol category. */
  function FindByCategory<C(==)>(content: seq<CommandMetadata>, category: CommandMetadata -> C, c: C): (r: seq<CommandMetadata>)
    ensures forall m :: m in r <==> m in content && category(m) == c
  {
    var r := FindWhere(content, category, c);
    assert forall m :: m in content ==> exists k :: 0 <= k < |content| && content[k] == m;
    r
  }

  /** `findByGroup`: `group` reads a definition's protocol group. */
  function FindByGroup<G(==)>(content: seq<CommandMetadata>, group: CommandMetadata -> G, g: G): (r: seq<CommandMetadata>)
    ensures forall m :: m in r <==> m in content && group(m) == g
  {
    var r := FindWhere(content, group, g);
    assert forall m :: m in content ==> exists k :: 0 <= k < |content| && content[k] == m;
    r
  }

  /** `getByName`: the first definition whose name is exactly `name`, or null. */
  function GetByName(content: seq<CommandMetadata>, name: string): (r: Option<CommandMetadata>)
    ensures r.Some? ==> (r.value.name == name &&
      exists i :: 0 <= i < |content| && content[i] == r.value && forall k :: 0 <= k < i ==> content[k].name != name)
    ensures r.None? <==> forall k :: 0 <= k < |content| ==> content[k].name != name
    decreases |content|
  {
    if |content| == 0 then None
    else if content[0].name == name then Some(content[0])
    else
      var r := GetByName(content[1..], name);
      assert forall k :: 1 <= k < |content| ==> content[k] == content[1..][k - 1];
      if r.Some? then
        var i :| 0 <= i < |content[1..]| && content[1..][i] == r.value && forall k :: 0 <= k < i ==> content[1..][k].name != name;
        assert content[i + 1] == r.value && forall k :: 0 <= k < i + 1 ==> content[k].name != name;
        r
      else r
  }

  /** The number of times `s` occurs in `xs`. */
  function Occurrences(xs: seq<string>, s: string): nat
    decreases |xs|
  {
    if |xs| == 0 then 0 else (if xs[0] == s then 1 else 0) + Occurrences(xs[1..], s)
  }

  /** `m`, once per occurrence of the alias among its aliases. */
  function Repeat(m: CommandMetadata, n: nat): (r: seq<CommandMetadata>)
    ensures |r| == n && forall k :: 0 <= k < n ==> r[k] == m
  {
    seq(n, _ => m)
  }

  /** `findByAlias`: in file order, each definition once for every occurrence
      of the alias in its alias list, so an alias listed twice gives the
      definition twice. A definition without an alias list raises
      `NullPointerException` when the loop reaches it. */
  function FindByAlias(content: seq<CommandMetadata>, alias: string): (r: Result<seq<CommandMetadata>, NullPointer>)
    ensures r.Failure? <==> exists k :: 0 <= k < |content| && content[k].aliases.None?
    ensures r.Success? ==> forall k :: 0 <= k < |r.value| ==>
      r.value[k] in content && alias in r.value[k].aliases.value
    ensures r.Success? ==> forall k :: 0 <= k < |content| && alias in content[k].aliases.value ==> content[k] in r.value
    decreases |content|
  {
    if |content| == 0 then Success([])
    else if content[0].aliases.None? then Failure(NullPointer)
    else
      var rest := FindByAlias(content[1..], alias);
      assert forall k :: 1 <= k < |content| ==> content[k] == content[1..][k - 1];
      if rest.Failure? then
        var k :| 0 <= k < |content[1..]| && content[1..][k].aliases.None?;
        assert content[k + 1].aliases.None?;
        rest
      else
        assert forall k :: 0 <= k < |content[1..]| ==> content[1..][k].aliases.Some?;
        assert forall k :: 0 <= k < |content| ==> content[k].aliases.Some?;
        FindByAliasStep(content, alias, rest.value);
        Success(Repeat(content[0], Occurrences(content[0].aliases.value, alias)) + rest.value)
  }

  /** One step of the loop of `findByAlias`: the first definition's copies
      ahead of what the rest of the files give are finds of the whole, and
      miss none of it. */
  lemma FindByAliasStep(content: seq<CommandMetadata>, alias: string, rest: seq<CommandMetadata>)
    requires |content| > 0 && forall k :: 0 <= k < |content| ==> content[k].aliases.Some?
    requires forall k :: 0 <= k < |rest| ==> rest[k] in content[1..] && alias in rest[k].aliases.value
    requires forall k :: 0 <= k < |content[1..]| && alias in content[1..][k].aliases.value ==> content[1..][k] in rest
    ensures var r := Repeat(content[0], Occurrences(content[0].aliases.value, alias)) + rest;
      (forall k :: 0 <= k < |r| ==> r[k] in content && alias in r[k].aliases.value) &&
      (forall k :: 0 <= k < |content| && alias in content[k].aliases.value ==> content[k] in r)
  {
    var n := Occurrences(content[0].aliases.value, alias);
    OccurrencesCount(content[0].aliases.value, alias);
    var r := Repeat(content[0], n) + rest;
    assert forall k :: n <= k < |r| ==> r[k] == rest[k - n];
    assert forall k :: 1 <= k < |content| ==> content[k] == content[1..][k - 1];
    assert n > 0 ==> r[0] == content[0];
  }

  /** The alias occurs in the list exactly when it is counted. */
  lemma {:induction false} OccurrencesCount(xs: seq<string>, s: string)
    ensures Occurrences(xs, s) > 0 <==> s in xs
    decreases |xs|
  {
    if |xs| > 0 {
      OccurrencesCount(xs[1..], s);
      assert xs == [xs[0]] + xs[1..];
    }
  }

  /** One definition contributes itself once per listing of the alias. */
  lemma FindByAliasOne(m: CommandMetadata, alias: string)
    requires m.aliases.Some?
    ensures FindByAlias([m], alias) == Success(Repeat(m, Occurrences(m.aliases.value, alias)))
  {
    assert [m][1..] == [];
    var n := Occurrences(m.aliases.value, alias);
    assert Repeat(m, n) + [] == Repeat(m, n);
  }

  /** The lookup over a concatenation of files raises exactly when the lookup
      over either part does. */
  lemma FindByAliasAppendFails(a: seq<CommandMetadata>, b: seq<CommandMetadata>, alias: string)
    ensures FindByAlias(a + b, alias).Failure? <==> FindByAlias(a, alias).Failure? || FindByAlias(b, alias).Failure?
  {
    var ab := a + b;
    assert forall k :: 0 <= k < |a| ==> ab[k] == a[k];
    assert forall k :: 0 <= k < |b| ==> ab[|a| + k] == b[k];
    if FindByAlias(ab, alias).Failure? {
      var k :| 0 <= k < |ab| && ab[k].aliases.None?;
      if k >= |a| {
        assert b[k - |a|].aliases.None?;
      }
    }
  }

  /** One step of the loop: a definition with an alias list contributes its
      copies ahead of what the rest of the files give. */
  lemma FindByAliasCons(m: CommandMetadata, rest: seq<CommandMetadata>, alias: string)
    requires m.aliases.Some? && FindByAlias(rest, alias).Success?
    ensures FindByAlias([m] + rest, alias) ==
      Success(Repeat(m, Occurrences(m.aliases.value, alias)) + FindByAlias(rest, alias).value)
  {
    assert ([m] + rest)[0] == m;
    assert ([m] + rest)[1..] == rest;
  }

  /** What the loop of `findByAlias` collects, stated on its own: each
      definition, in file order, once per listing of the alias. */
  function AliasListings(content: seq<CommandMetadata>, alias: string): seq<CommandMetadata>
    decreases |content|
  {
    if |content| == 0 then []
    else Repeat(content[0], Occurrences(content[0].aliases.GetOr([]), alias)) + AliasListings(content[1..], alias)
  }

  /** The listings of a concatenation are those of its parts, in order. */
  lemma {:induction false} AliasListingsAppend(a: seq<CommandMetadata>, b: seq<CommandMetadata>, alias: string)
    ensures AliasListings(a + b, alias) == AliasListings(a, alias) + AliasListings(b, alias)
    decreases |a|
  {
    if |a| == 0 {
      assert a + b == b;
    } else {
      assert (a + b)[0] == a[0] && (a + b)[1..] == a[1..] + b;
      AliasListingsAppend(a[1..], b, alias);
      var head := Repeat(a[0], Occurrences(a[0].aliases.GetOr([]), alias));
      assert head + (AliasListings(a[1..], alias) + AliasListings(b, alias)) ==
        (head + AliasListings(a[1..], alias)) + AliasListings(b, alias);
    }
  }

  /** A lookup that does not raise returns exactly the listings. */
  lemma {:induction false} FindByAliasListings(content: seq<CommandMetadata>, alias: string)
    ensures FindByAlias(content, alias).Success? ==> FindByAlias(content, alias).value == AliasListings(content, alias)
    decreases |content|
  {
    if |content| > 0 && FindByAlias(content, alias).Success? {
      var m, t := content[0], content[1..];
      assert content == [m] + t;
      FindByAliasAppendFails([m], t, alias);
      FindByAliasListings(t, alias);
      FindByAliasCons(m, t, alias);
    }
  }

  /** Otherwise the lookup over a concatenation lists the finds of the first
      part before those of the second. */
  lemma FindByAliasAppend(a: seq<CommandMetadata>, b: seq<CommandMetadata>, alias: string)
    requires FindByAlias(a, alias).Success? && FindByAlias(b, alias).Success?
    ensures FindByAlias(a + b, alias) == Success(FindByAlias(a, alias).value + FindByAlias(b, alias).value)
  {
    FindByAliasAppendFails(a, b, alias);
    FindByAliasListings(a, alias);
    FindByAliasListings(b, alias);
    FindByAliasListings(a + b, alias);
    AliasListingsAppend(a, b, alias);
  }
}
