/** Section names: what resolving them in a name table yields. */
module ElfNames {
  import opened Machine
  import opened ElfSpec

  /** A name as it stands in a table: no NUL inside, one after it. */
  predicate NameIn(shstr: Bytes, at: nat, name: Bytes) {
    at + |name| < |shstr| && shstr[at..at + |name|] == name && 0 !in name && shstr[at + |name|] == 0
  }

  lemma {:induction false} FirstZeroIs(s: Bytes)
    ensures FirstZero(s).Some? ==> FirstZero(s).value < |s| && s[FirstZero(s).value] == 0
    ensures FirstZero(s).Some? ==> 0 !in s[..FirstZero(s).value]
  {
    if s != [] && s[0] != 0 {
      FirstZeroIs(s[1..]);
      if FirstZero(s[1..]).Some? {
        var n := FirstZero(s[1..]).value;
        assert s[..n + 1] == [s[0]] + s[1..][..n];
      }
    }
  }

  lemma NameAtIs(shstr: Bytes, at: nat, budget: nat)
    ensures NameAt(shstr, at, budget).Some? ==> NameIn(shstr, at, NameAt(shstr, at, budget).value)
  {
    if at <= |shstr| {
      var tail := shstr[at..];
      var scan := tail[..Min(|tail|, budget)];
      FirstZeroIs(scan);
      if FirstZero(scan).Some? {
        var n := FirstZero(scan).value;
        assert scan[..n] == shstr[at..at + n] && scan[n] == shstr[at + n];
      }
    }
  }

  lemma NameUnique(shstr: Bytes, at: nat, x: Bytes, y: Bytes)
    requires NameIn(shstr, at, x) && NameIn(shstr, at, y)
    ensures x == y
  {
    assert forall i :: 0 <= i < |x| ==> x[i] == shstr[at..at + |x|][i] == shstr[at + i];
    assert forall i :: 0 <= i < |y| ==> y[i] == shstr[at..at + |y|][i] == shstr[at + i];
  }

  lemma NameGrows(shstr: Bytes, t: Bytes, at: nat, name: Bytes)
    requires NameIn(shstr, at, name) && |shstr| <= |t| && t[..|shstr|] == shstr
    ensures NameIn(t, at, name)
  {
    assert t[at + |name|] == t[..|shstr|][at + |name|];
    assert t[at..at + |name|] == t[..|shstr|][at..at + |name|];
  }

  /** Sections with their names, in the order of a list of nameless sections. */
  predicate NamedAs(ss: seq<Section>, named: seq<Section>, shstr: Bytes) {
    && |named| == |ss|
    && (forall i :: 0 <= i < |ss| ==> named[i] == ss[i].(name := named[i].name))
    && (forall i :: 0 <= i < |ss| ==> NameIn(shstr, named[i].nameAt, named[i].name))
  }

  lemma NamedCons(s: Section, name: Bytes, ss: seq<Section>, named: seq<Section>, shstr: Bytes)
    requires NamedAs(ss, named, shstr) && NameIn(shstr, s.nameAt, name)
    ensures NamedAs([s] + ss, [s.(name := name)] + named, shstr)
  {
    var all, out := [s] + ss, [s.(name := name)] + named;
    forall i | 0 <= i < |all|
      ensures out[i] == all[i].(name := out[i].name) && NameIn(shstr, out[i].nameAt, out[i].name)
    {
      if i > 0 { assert out[i] == named[i - 1] && all[i] == ss[i - 1]; }
    }
  }

  lemma {:induction false} WithNamesIs(ss: seq<Section>, shstr: Bytes, budget: nat, named: seq<Section>)
    requires WithNames(ss, shstr, budget) == Good(named)
    ensures NamedAs(ss, named, shstr)
    decreases |ss|, 1
  {
    if ss != [] {
      var name := NameAt(shstr, ss[0].nameAt, budget).value;
      NameAtIs(shstr, ss[0].nameAt, budget);
      NamedRest(ss, shstr, budget, named, name);
    }
  }

  lemma {:induction false} NamedRest(
    ss: seq<Section>, shstr: Bytes, budget: nat, named: seq<Section>, name: Bytes)
    requires ss != [] && |name| < budget && NameIn(shstr, ss[0].nameAt, name)
    requires WithNames(ss[1..], shstr, budget - (|name| + 1)).Good?
    requires named == [ss[0].(name := name)] + WithNames(ss[1..], shstr, budget - (|name| + 1)).value
    ensures NamedAs(ss, named, shstr)
    decreases |ss|, 0
  {
    var rest := WithNames(ss[1..], shstr, budget - (|name| + 1)).value;
    WithNamesIs(ss[1..], shstr, budget - (|name| + 1), rest);
    NamedCons(ss[0], name, ss[1..], rest, shstr);
    assert ss == [ss[0]] + ss[1..];
  }
}
