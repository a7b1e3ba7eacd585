/**
 * The pass the symbol reader makes over a symbol table, independent of the
 * entry layout: read entries 0 .. n-1 one at a time, skip those the filter
 * rejects, convert the rest, keep table order. In the C source this pass is a
 * macro template instantiated once per ELF class; here the width-specific
 * reading and conversion are the parameters `read` and `norm`.
 */
module TablePass {
  import opened ElfRegion

  /** Entries 0 .. n-1 as read by `read`; fails at the first unreadable one. */
  function Entries<E>(read: nat -> Result<E>, n: nat): (r: Result<seq<E>>)
    ensures r.Ok? ==> |r.value| == n
  {
    if n == 0 then Ok([])
    else
      var prev :- Entries(read, n - 1);
      var e :- read(n - 1);
      Ok(prev + [e])
  }

  /** The table is readable exactly when each entry is, and then its i-th
      element is entry i. */
  lemma {:induction false} EntriesAt<E>(read: nat -> Result<E>, n: nat)
    ensures Entries(read, n).Ok? <==> forall i :: 0 <= i < n ==> read(i).Ok?
    ensures Entries(read, n).Ok? ==> forall i :: 0 <= i < n ==> read(i) == Ok(Entries(read, n).value[i])
  {
    if n > 0 {
      EntriesAt(read, n - 1);
      var prev := Entries(read, n - 1);
      if prev.Ok? && read(n - 1).Ok? {
        var all := Entries(read, n).value;
        assert all == prev.value + [read(n - 1).value];
        forall i | 0 <= i < n ensures read(i) == Ok(all[i]) {
          if i < n - 1 {
            assert all[i] == prev.value[i];
          }
        }
      } else if prev.Err? {
        var j :| 0 <= j < n - 1 && !read(j).Ok?;
      }
    }
  }

  /** Once reading fails it fails for every longer table, with the same
      error. */
  lemma {:induction false} EntriesErrPersists<E>(read: nat -> Result<E>, i: nat, n: nat)
    requires i <= n && Entries(read, i).Err?
    ensures Entries(read, n) == Entries(read, i)
    decreases n - i
  {
    if i < n {
      EntriesErrPersists(read, i + 1, n);
    }
  }

  /** Reading the table can fail only with an error an entry read reports. */
  lemma {:induction false} EntriesErrFrom<E>(read: nat -> Result<E>, n: nat, x: Error)
    requires forall i: nat :: read(i).Err? ==> read(i).error == x
    ensures Entries(read, n).Err? ==> Entries(read, n).error == x
  {
    if n > 0 {
      EntriesErrFrom(read, n - 1, x);
    }
  }

  /** The filter, keeping order. */
  function Filter<E>(keep: E -> bool, es: seq<E>): seq<E>
  {
    if es == [] then []
    else
      var k := Filter(keep, es[..|es| - 1]);
      if keep(es[|es| - 1]) then k + [es[|es| - 1]] else k
  }

  lemma FilterSnoc<E>(keep: E -> bool, es: seq<E>, e: E)
    ensures Filter(keep, es + [e]) == if keep(e) then Filter(keep, es) + [e] else Filter(keep, es)
  {
    assert (es + [e])[..|es|] == es;
  }

  /** Every element of the result is an element of the input that passes, and
      every element that passes is in the result. */
  lemma {:induction false} FilterExactly<E>(keep: E -> bool, es: seq<E>)
    ensures forall e :: e in Filter(keep, es) <==> e in es && keep(e)
  {
    if es != [] {
      var p := es[..|es| - 1];
      FilterExactly(keep, p);
      assert es == p + [es[|es| - 1]];
    }
  }

  /** The result keeps the input's order: any order the input is sorted by,
      the result is sorted by as well. */
  lemma {:induction false} FilterKeepsOrder<E>(keep: E -> bool, es: seq<E>, key: E -> int)
    requires forall a, b :: 0 <= a < b < |es| ==> key(es[a]) < key(es[b])
    ensures forall a, b :: 0 <= a < b < |Filter(keep, es)| ==>
      key(Filter(keep, es)[a]) < key(Filter(keep, es)[b])
  {
    if es != [] {
      var last := es[|es| - 1];
      var p := es[..|es| - 1];
      FilterKeepsOrder(keep, p, key);
      FilterExactly(keep, p);
      var fp := Filter(keep, p);
      if keep(last) {
        forall e | e in fp ensures key(e) < key(last) {
          FilterMember(keep, p, e);
          var i :| 0 <= i < |p| && p[i] == e;
          assert p[i] == es[i];
        }
        var f := Filter(keep, es);
        assert f == fp + [last];
        forall a, b | 0 <= a < b < |f| ensures key(f[a]) < key(f[b]) {
          if b == |fp| {
            assert f[a] in fp;
          }
        }
      }
    }
  }

  /** Nothing passes, nothing is kept. */
  lemma {:induction false} FilterNone<E>(keep: E -> bool, es: seq<E>)
    requires forall k :: 0 <= k < |es| ==> !keep(es[k])
    ensures Filter(keep, es) == []
  {
    if es != [] {
      FilterNone(keep, es[..|es| - 1]);
    }
  }

  lemma FilterMember<E>(keep: E -> bool, es: seq<E>, e: E)
    requires e in Filter(keep, es)
    ensures e in es
  {
    FilterExactly(keep, es);
  }

  /** The result's length is the number of input positions that pass. */
  lemma {:induction false} FilterCount<E>(keep: E -> bool, es: seq<E>)
    ensures |Filter(keep, es)| == |set i | 0 <= i < |es| && keep(es[i])|
  {
    if es != [] {
      var n := |es| - 1;
      var p := es[..n];
      FilterCount(keep, p);
      var sp := set i | 0 <= i < |p| && keep(p[i]);
      var s := set i | 0 <= i < |es| && keep(es[i]);
      if keep(es[n]) {
        assert s == sp + {n};
        assert n !in sp;
      } else {
        assert s == sp;
      }
    }
  }

  /** Converts every element; fails at the first conversion that fails. */
  function MapAll<E, S>(norm: E -> Result<S>, es: seq<E>): (r: Result<seq<S>>)
    ensures r.Ok? ==> |r.value| == |es|
  {
    if es == [] then Ok([])
    else
      var prev :- MapAll(norm, es[..|es| - 1]);
      var s :- norm(es[|es| - 1]);
      Ok(prev + [s])
  }

  lemma MapAllSnoc<E, S>(norm: E -> Result<S>, es: seq<E>, e: E)
    ensures MapAll(norm, es + [e]) ==
      match MapAll(norm, es)
      case Err(x) => Err(x)
      case Ok(p) =>
        match norm(e)
        case Err(x) => Err(x)
        case Ok(s) => Ok(p + [s])
  {
    assert (es + [e])[..|es|] == es;
  }

  /** The conversion succeeds exactly when every element converts, and then
      the i-th result is the i-th element converted. */
  lemma {:induction false} MapAllAt<E, S>(norm: E -> Result<S>, es: seq<E>)
    ensures MapAll(norm, es).Ok? <==> forall i :: 0 <= i < |es| ==> norm(es[i]).Ok?
    ensures MapAll(norm, es).Ok? ==> forall i :: 0 <= i < |es| ==> norm(es[i]) == Ok(MapAll(norm, es).value[i])
  {
    if es != [] {
      var p := es[..|es| - 1];
      MapAllAt(norm, p);
      assert es == p + [es[|es| - 1]];
      MapAllSnoc(norm, p, es[|es| - 1]);
    }
  }

  /** The single pass over entries 0 .. n-1: read an entry, skip it unless it
      passes, otherwise convert it and append. */
  function Pass<E, S>(read: nat -> Result<E>, keep: E -> bool, norm: E -> Result<S>, n: nat): (r: Result<seq<S>>)
    ensures r.Ok? ==> |r.value| <= n
  {
    if n == 0 then Ok([])
    else
      var prev :- Pass(read, keep, norm, n - 1);
      var e :- read(n - 1);
      if !keep(e) then Ok(prev)
      else
        var s :- norm(e);
        Ok(prev + [s])
  }

  /** The single pass is the composition "read every entry, keep those that
      pass, convert each kept one": both succeed together, with the same
      result. */
  lemma {:induction false} PassIsFilterMap<E, S>(read: nat -> Result<E>, keep: E -> bool, norm: E -> Result<S>, n: nat)
    ensures Pass(read, keep, norm, n).Ok? <==>
      Entries(read, n).Ok? && MapAll(norm, Filter(keep, Entries(read, n).value)).Ok?
    ensures Pass(read, keep, norm, n).Ok? ==>
      Pass(read, keep, norm, n) == MapAll(norm, Filter(keep, Entries(read, n).value))
  {
    if n > 0 {
      PassIsFilterMap(read, keep, norm, n - 1);
      var prev := Entries(read, n - 1);
      if prev.Ok? && read(n - 1).Ok? {
        var e := read(n - 1).value;
        FilterSnoc(keep, prev.value, e);
        MapAllSnoc(norm, Filter(keep, prev.value), e);
      }
    }
  }

  /** Once the pass fails it fails for every longer table, with the same
      error. */
  lemma {:induction false} PassErrPersists<E, S>(read: nat -> Result<E>, keep: E -> bool, norm: E -> Result<S>, i: nat, n: nat)
    requires i <= n && Pass(read, keep, norm, i).Err?
    ensures Pass(read, keep, norm, n) == Pass(read, keep, norm, i)
    decreases n - i
  {
    if i < n {
      PassErrPersists(read, keep, norm, i + 1, n);
    }
  }

  /** The pass as the C loop runs it: a buffer of count + 1 slots, all
      holding `zero` (calloc), is filled from the front with a running kept
      count. On success the kept results fill the front of the buffer and
      every later slot, at least the last one, still holds `zero`. */
  method RunPass<E, S>(read: nat -> Result<E>, keep: E -> bool, norm: E -> Result<S>, count: nat, zero: S)
    returns (r: Result<seq<S>>, buffer: array<S>)
    ensures r == Pass(read, keep, norm, count)
    ensures fresh(buffer) && buffer.Length == count + 1
    ensures r.Ok? ==>
      (buffer[..|r.value|] == r.value
       && forall k :: |r.value| <= k < buffer.Length ==> buffer[k] == zero)
  {
    buffer := new S[count + 1](_ => zero);
    var kept := 0;
    var i := 0;
    ghost var out: seq<S> := [];
    while i < count
      invariant 0 <= kept <= i <= count && |out| == kept
      invariant Pass(read, keep, norm, i) == Ok(out)
      invariant buffer[..kept] == out
      invariant forall k :: kept <= k < buffer.Length ==> buffer[k] == zero
    {
      var e := read(i);
      if e.Err? {
        PassErrPersists(read, keep, norm, i + 1, count);
        return Err(e.error), buffer;
      }
      if !keep(e.value) {
        i := i + 1;
        continue;
      }
      var s := norm(e.value);
      if s.Err? {
        PassErrPersists(read, keep, norm, i + 1, count);
        return Err(s.error), buffer;
      }
      buffer[kept] := s.value;
      out := out + [s.value];
      kept := kept + 1;
      i := i + 1;
    }
    r := Ok(buffer[..kept]);
  }

  /** A successful pass emits one symbol per table position whose entry
      passes the filter. */
  lemma PassCount<E, S>(read: nat -> Result<E>, keep: E -> bool, norm: E -> Result<S>, n: nat)
    requires Pass(read, keep, norm, n).Ok?
    ensures Entries(read, n).Ok?
    ensures |Pass(read, keep, norm, n).value| == CountKept(keep, Entries(read, n).value)
  {
    PassIsFilterMap(read, keep, norm, n);
    FilterCount(keep, Entries(read, n).value);
  }

  /** The number of positions of `es` whose entry passes. */
  function CountKept<E>(keep: E -> bool, es: seq<E>): nat
  {
    |set i | 0 <= i < |es| && keep(es[i])|
  }

  /** The pass can fail only with an error that reading or converting
      reports. */
  lemma {:induction false} PassErrFrom<E, S>(read: nat -> Result<E>, keep: E -> bool, norm: E -> Result<S>, n: nat, x: Error)
    requires forall i: nat :: read(i).Err? ==> read(i).error == x
    requires forall e: E :: norm(e).Err? ==> norm(e).error == x
    ensures Pass(read, keep, norm, n).Err? ==> Pass(read, keep, norm, n).error == x
  {
    if n > 0 {
      PassErrFrom(read, keep, norm, n - 1, x);
      if Pass(read, keep, norm, n - 1).Ok? {
        var r := read(n - 1);
        if r.Ok? && keep(r.value) {
          ConvertedErr(norm, x, r.value);
        }
      }
    }
  }

  /** One conversion fails only with the error every conversion reports. */
  lemma ConvertedErr<E, S>(norm: E -> Result<S>, x: Error, e: E)
    requires forall e: E :: norm(e).Err? ==> norm(e).error == x
    ensures norm(e).Err? ==> norm(e).error == x
  {
  }

  /** A property every successful conversion has holds of every element the
      pass produces. */
  lemma {:induction false} PassOutputsHave<E, S>(read: nat -> Result<E>, keep: E -> bool, norm: E -> Result<S>, n: nat,
                                                 prop: S -> bool)
    requires forall e :: norm(e).Ok? ==> prop(norm(e).value)
    requires Pass(read, keep, norm, n).Ok?
    ensures forall k :: 0 <= k < |Pass(read, keep, norm, n).value| ==> prop(Pass(read, keep, norm, n).value[k])
  {
    if n > 0 {
      PassOutputsHave(read, keep, norm, n - 1, prop);
      var prev := Pass(read, keep, norm, n - 1).value;
      var e := read(n - 1).value;
      if keep(e) {
        var out := prev + [norm(e).value];
        assert Pass(read, keep, norm, n).value == out;
        assert norm(e).Ok?;
        ConvertedHas(norm, prop, e);
        assert out[|prev|] == norm(e).value;
        assert forall k :: 0 <= k < |prev| ==> out[k] == prev[k];
      }
    }
  }

  /** One instance of the hypothesis of PassOutputsHave. */
  lemma ConvertedHas<E, S>(norm: E -> Result<S>, prop: S -> bool, e: E)
    requires forall e :: norm(e).Ok? ==> prop(norm(e).value)
    requires norm(e).Ok?
    ensures prop(norm(e).value)
  {
  }
}
