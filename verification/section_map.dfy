/**
 * The `defaultdict(list)` the section extractor fills: section titles in
 * insertion order, each with its list of records. Reading a title that was
 * never inserted gives the empty list, as the default factory does.
 */
module SectionMap {

  /** One (column title, cell text) pair. */
  type Field = (string, string)

  /** One table row as a list of fields. */
  type Record = seq<Field>

  datatype Section = Section(title: string, records: seq<Record>)

  /** Sections in the order their titles were first inserted. */
  type Sections = seq<Section>

  /** The titles, in insertion order. */
  function Keys(m: Sections): seq<string> {
    seq(|m|, i requires 0 <= i < |m| => m[i].title)
  }

  ghost predicate Distinct(ks: seq<string>) {
    forall i, j :: 0 <= i < j < |ks| ==> ks[i] != ks[j]
  }

  /** No title occurs twice, as in any dictionary. */
  ghost predicate UniqueKeys(m: Sections) {
    Distinct(Keys(m))
  }

  /** `sections[k]`: the records stored under `k`, or the empty list. */
  function Lookup(m: Sections, k: string): seq<Record> {
    if m == [] then []
    else if m[0].title == k then m[0].records
    else Lookup(m[1..], k)
  }

  /** The number of records over all sections. */
  function TotalRecords(m: Sections): nat {
    if m == [] then 0 else |m[0].records| + TotalRecords(m[1..])
  }

  /** `sections[k].append(rec)`: creates `k` (at the end) on first use. */
  function Append(m: Sections, k: string, rec: Record): Sections {
    if m == [] then [Section(k, [rec])]
    else if m[0].title == k then [Section(k, m[0].records + [rec])] + m[1..]
    else [m[0]] + Append(m[1..], k, rec)
  }

  /** The key list after inserting `k`: unchanged when `k` is already there. */
  function AddKey(ks: seq<string>, k: string): seq<string> {
    if k in ks then ks else ks + [k]
  }

  lemma AddKeyDistinct(ks: seq<string>, k: string)
    requires Distinct(ks)
    ensures Distinct(AddKey(ks, k))
  {
  }

  /** Appending adds `k` to the keys only if it is new, and so keeps keys unique. */
  lemma {:induction false} AppendKeys(m: Sections, k: string, rec: Record)
    ensures Keys(Append(m, k, rec)) == AddKey(Keys(m), k)
    ensures UniqueKeys(m) ==> UniqueKeys(Append(m, k, rec))
    decreases |m|
  {
    var r := Append(m, k, rec);
    if m == [] {
      assert Keys(r) == [k];
    } else if m[0].title == k {
      assert Keys(m)[0] == k;
      assert Keys(r) == Keys(m);
    } else {
      var tail := Append(m[1..], k, rec);
      AppendKeys(m[1..], k, rec);
      assert Keys(m) == [m[0].title] + Keys(m[1..]);
      assert Keys(r) == [m[0].title] + Keys(tail);
      assert k in Keys(m) <==> k in Keys(m[1..]);
    }
    if UniqueKeys(m) {
      AddKeyDistinct(Keys(m), k);
    }
  }

  /** Appending files `rec` last under `k`, leaves every other key's records
      alone, and adds exactly one record overall. */
  lemma {:induction false} AppendLookup(m: Sections, k: string, rec: Record)
    ensures Lookup(Append(m, k, rec), k) == Lookup(m, k) + [rec]
    ensures forall k' :: k' != k ==> Lookup(Append(m, k, rec), k') == Lookup(m, k')
    ensures TotalRecords(Append(m, k, rec)) == TotalRecords(m) + 1
    decreases |m|
  {
    var r := Append(m, k, rec);
    if m != [] && m[0].title != k {
      AppendLookup(m[1..], k, rec);
      assert r[1..] == Append(m[1..], k, rec);
    } else if m != [] {
      assert r[1..] == m[1..];
    }
  }

  /** The distinct elements of `s`, in order of first occurrence. */
  function Dedup(s: seq<string>): (r: seq<string>)
    ensures forall x :: x in r <==> x in s
    ensures Distinct(r)
    decreases |s|
  {
    if s == [] then []
    else
      var n := |s| - 1;
      assert forall x :: x in s <==> x in s[..n] || x == s[n];
      AddKey(Dedup(s[..n]), s[n])
  }

  lemma DedupSnoc(s: seq<string>, x: string)
    ensures Dedup(s + [x]) == AddKey(Dedup(s), x)
  {
    assert (s + [x])[..|s|] == s;
  }
}
