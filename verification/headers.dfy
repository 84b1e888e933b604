/**
 The header multimap of a request or response: an ordered list of
 (name, value) fields, names compared without regard to case, duplicates
 allowed. The operations follow the multidict the interception engine
 exposes: `pop` drops every field with the name, `get` reads the first
 value, `set_all` rewrites the values of the existing fields in place.
 */
module Headers {
  import opened Base
  import opened Text

  datatype Header = Header(name: string, value: string)

  type HeaderList = seq<Header>

  predicate SameName(a: string, b: string)
  {
    EqualIgnoringCase(a, b)
  }

  /** The fields called `n`, in their original order. */
  function Select(h: HeaderList, n: string): (r: HeaderList)
    ensures forall x :: x in r <==> x in h && SameName(x.name, n)
  {
    if h == [] then []
    else (if SameName(h[0].name, n) then [h[0]] else []) + Select(h[1..], n)
  }

  function Values(h: HeaderList): (r: seq<string>)
    ensures |r| == |h|
    ensures forall k :: 0 <= k < |h| ==> r[k] == h[k].value
  {
    if h == [] then [] else [h[0].value] + Values(h[1..])
  }

  /** `headers.get_all(n)`. */
  function GetAll(h: HeaderList, n: string): seq<string>
  {
    Values(Select(h, n))
  }

  /** `headers.get(n)`: the first value, if there is a field called `n`. */
  function Get(h: HeaderList, n: string): Option<string>
  {
    var vs := GetAll(h, n);
    if vs == [] then None else Some(vs[0])
  }

  /** `headers.pop(n, None)`: every field called `n` is dropped, the others
      stay, in their order. */
  function Remove(h: HeaderList, n: string): (r: HeaderList)
    ensures forall x :: x in r <==> x in h && !SameName(x.name, n)
    ensures IsSubseq(r, h)
    ensures |r| == |h| - |Select(h, n)|
    ensures forall m :: !SameName(m, n) ==> Select(r, m) == Select(h, m)
  {
    if h == [] then []
    else
      var rest := Remove(h[1..], n);
      if SameName(h[0].name, n) then
        assert h[1..] == h[1..][0..];
        SubseqOfSuffix(rest, h, 1);
        rest
      else
        assert ([h[0]] + rest)[1..] == rest;
        [h[0]] + rest
  }

  /** `headers.set_all(n, vs)`: the k-th field called `n` takes `vs[k]`;
      fields beyond `|vs|` are dropped and values beyond the existing fields
      are appended at the end. */
  function SetAll(h: HeaderList, n: string, vs: seq<string>): (r: HeaderList)
    ensures GetAll(r, n) == vs
    ensures forall m :: !SameName(m, n) ==> Select(r, m) == Select(h, m)
    decreases |h|
  {
    if h == [] then Appended(n, vs)
    else if !SameName(h[0].name, n) then
      var rest := SetAll(h[1..], n, vs);
      assert forall m :: Select([h[0]] + rest, m) == (if SameName(h[0].name, m) then [h[0]] else []) + Select(rest, m) by {
        forall m { SelectCons(h[0], rest, m); }
      }
      [h[0]] + rest
    else if vs == [] then
      SetAll(h[1..], n, [])
    else
      var rest := SetAll(h[1..], n, vs[1..]);
      var y := Header(h[0].name, vs[0]);
      assert forall m :: Select([y] + rest, m) == (if SameName(y.name, m) then [y] else []) + Select(rest, m) by {
        forall m { SelectCons(y, rest, m); }
      }
      [y] + rest
  }

  lemma SelectCons(x: Header, h: HeaderList, m: string)
    ensures Select([x] + h, m) == (if SameName(x.name, m) then [x] else []) + Select(h, m)
  {
    assert ([x] + h)[1..] == h;
  }

  /** Writing back as many values as there are fields called `n` rewrites
      those fields in place: same length, same names at every position,
      every other field untouched. */
  lemma {:induction false} SetAllInPlace(h: HeaderList, n: string, vs: seq<string>)
    requires |vs| == |Select(h, n)|
    ensures |SetAll(h, n, vs)| == |h|
    ensures forall k :: 0 <= k < |h| ==> SetAll(h, n, vs)[k].name == h[k].name
    ensures forall k :: 0 <= k < |h| && !SameName(h[k].name, n) ==> SetAll(h, n, vs)[k] == h[k]
    decreases |h|
  {
    if h != [] {
      assert h == [h[0]] + h[1..];
      SelectCons(h[0], h[1..], n);
      var r := SetAll(h, n, vs);
      var rest: HeaderList;
      if !SameName(h[0].name, n) {
        SetAllInPlace(h[1..], n, vs);
        rest := SetAll(h[1..], n, vs);
        assert r == [h[0]] + rest;
      } else {
        SetAllInPlace(h[1..], n, vs[1..]);
        rest := SetAll(h[1..], n, vs[1..]);
        assert r == [Header(h[0].name, vs[0])] + rest;
      }
      forall k | 1 <= k < |h|
        ensures r[k].name == h[k].name
        ensures !SameName(h[k].name, n) ==> r[k] == h[k]
      {
        assert r[k] == rest[k - 1] && h[k] == h[1..][k - 1];
      }
    }
  }

  function Appended(n: string, vs: seq<string>): (r: HeaderList)
    ensures GetAll(r, n) == vs
    ensures forall m :: !SameName(m, n) ==> Select(r, m) == []
    decreases |vs|
  {
    if vs == [] then []
    else
      var rest := Appended(n, vs[1..]);
      assert ([Header(n, vs[0])] + rest)[1..] == rest;
      [Header(n, vs[0])] + rest
  }

  /** `headers[n] = v`. */
  function Set(h: HeaderList, n: string, v: string): (r: HeaderList)
    ensures Get(r, n) == Some(v) && GetAll(r, n) == [v]
    ensures forall m :: !SameName(m, n) ==> Select(r, m) == Select(h, m)
  {
    SetAll(h, n, [v])
  }

  /** Writing back the values just read changes nothing. */
  lemma {:induction false} SetAllCurrentValues(h: HeaderList, n: string)
    ensures SetAll(h, n, GetAll(h, n)) == h
    decreases |h|
  {
    if h != [] {
      SetAllCurrentValues(h[1..], n);
      assert h == [h[0]] + h[1..];
      if SameName(h[0].name, n) {
        assert Select(h, n) == [h[0]] + Select(h[1..], n);
        assert GetAll(h, n) == [h[0].value] + GetAll(h[1..], n);
      } else {
        assert Select(h, n) == Select(h[1..], n);
      }
    }
  }

  /** Removing a header that is not there changes nothing. */
  lemma {:induction false} RemoveAbsent(h: HeaderList, n: string)
    ensures (forall x :: x in h ==> !SameName(x.name, n)) ==> Remove(h, n) == h
    decreases |h|
  {
    if h != [] && forall x :: x in h ==> !SameName(x.name, n) {
      assert h[0] in h;
      assert forall x :: x in h[1..] ==> x in h;
      RemoveAbsent(h[1..], n);
      var rest := Remove(h[1..], n);
      assert Remove(h, n) == [h[0]] + rest;
      assert h == [h[0]] + h[1..];
    }
  }

  /** Some name of `ns` is `n`, compared without case. */
  predicate NamedIn(n: string, ns: seq<string>)
  {
    exists i | 0 <= i < |ns| :: SameName(n, ns[i])
  }

  /** The fields whose name is none of `ns`, in their original order: the
      part of a header list that a rewrite of the names `ns` must leave
      alone. */
  function Others(h: HeaderList, ns: seq<string>): (r: HeaderList)
    ensures forall x :: x in r <==> x in h && !NamedIn(x.name, ns)
    ensures IsSubseq(r, h)
  {
    if h == [] then []
    else
      var rest := Others(h[1..], ns);
      if NamedIn(h[0].name, ns) then
        assert h[1..] == h[1..][0..];
        SubseqOfSuffix(rest, h, 1);
        rest
      else
        assert ([h[0]] + rest)[1..] == rest;
        [h[0]] + rest
  }

  /** A list with no field named in `ns` is its own untouched part. */
  lemma {:induction false} OthersOfClean(h: HeaderList, ns: seq<string>)
    requires forall x :: x in h ==> !NamedIn(x.name, ns)
    ensures Others(h, ns) == h
    decreases |h|
  {
    if h != [] {
      assert h[0] in h;
      assert forall x :: x in h[1..] ==> x in h;
      OthersOfClean(h[1..], ns);
      assert h == [h[0]] + h[1..];
    }
  }

  /** Popping one of the names `ns` leaves the other fields exactly as they
      were, order across names included. */
  lemma {:induction false} OthersRemove(h: HeaderList, n: string, ns: seq<string>)
    requires n in ns
    ensures Others(Remove(h, n), ns) == Others(h, ns)
    decreases |h|
  {
    if h != [] {
      OthersRemove(h[1..], n, ns);
      var rest := Remove(h[1..], n);
      if SameName(h[0].name, n) {
        var i :| 0 <= i < |ns| && ns[i] == n;
        assert NamedIn(h[0].name, ns);
      } else {
        assert Remove(h, n) == [h[0]] + rest;
        assert ([h[0]] + rest)[1..] == rest;
      }
    }
  }

  /** Rewriting the values of one of the names `ns` with `set_all` leaves
      the other fields exactly as they were, order across names included. */
  lemma {:induction false} OthersSetAll(h: HeaderList, n: string, vs: seq<string>, ns: seq<string>)
    requires n in ns
    ensures Others(SetAll(h, n, vs), ns) == Others(h, ns)
    decreases |h|
  {
    var i :| 0 <= i < |ns| && ns[i] == n;
    if h == [] {
      OthersAppended(n, vs, ns);
    } else if !SameName(h[0].name, n) {
      OthersSetAll(h[1..], n, vs, ns);
      var rest := SetAll(h[1..], n, vs);
      assert ([h[0]] + rest)[1..] == rest;
    } else if vs == [] {
      assert NamedIn(h[0].name, ns);
      OthersSetAll(h[1..], n, [], ns);
    } else {
      assert NamedIn(h[0].name, ns);
      OthersSetAll(h[1..], n, vs[1..], ns);
      var rest := SetAll(h[1..], n, vs[1..]);
      var y := Header(h[0].name, vs[0]);
      assert ([y] + rest)[1..] == rest;
    }
  }

  lemma {:induction false} OthersAppended(n: string, vs: seq<string>, ns: seq<string>)
    requires n in ns
    ensures Others(Appended(n, vs), ns) == []
    decreases |vs|
  {
    if vs != [] {
      var i :| 0 <= i < |ns| && ns[i] == n;
      assert NamedIn(n, ns);
      OthersAppended(n, vs[1..], ns);
      var rest := Appended(n, vs[1..]);
      assert ([Header(n, vs[0])] + rest)[1..] == rest;
    }
  }
}
