/** The read-only scans the handlers run over the store, and what the three
    writes (append, overwrite at a position, removal at a position) do to them. */
module Scan {
  import opened Cursos

  /** The first record whose id equals `id`, or None: the generator scan with
      a None default that every by-id handler starts with. */
  function Lookup(s: seq<Curso>, id: string): (r: Option<Curso>)
    ensures r.Some? ==> r.value in s && r.value.id == Some(id)
    ensures r.None? <==> Fresh(s, id)
  {
    if s == [] then None
    else if s[0].id == Some(id) then Some(s[0])
    else Lookup(s[1..], id)
  }

  /** The position of the first record whose id equals `id`, or None. */
  function FirstIndex(s: seq<Curso>, id: string): (r: Option<nat>)
    ensures r.Some? ==> r.value < |s| && s[r.value].id == Some(id)
    ensures r.Some? ==> forall j :: 0 <= j < r.value ==> s[j].id != Some(id)
    ensures r.None? <==> Fresh(s, id)
  {
    if s == [] then None
    else if s[0].id == Some(id) then Some(0)
    else match FirstIndex(s[1..], id)
      case None => None
      case Some(i) => Some(i + 1)
  }

  /** The position of the first record equal to `c` in every field: list.index. */
  function IndexOf(s: seq<Curso>, c: Curso): (r: nat)
    requires c in s
    ensures r < |s| && s[r] == c
    ensures forall j :: 0 <= j < r ==> s[j] != c
  {
    if s[0] == c then 0 else 1 + IndexOf(s[1..], c)
  }

  /** `s` without the record at position `i`, the others in their order. */
  function RemoveAt(s: seq<Curso>, i: nat): (r: seq<Curso>)
    requires i < |s|
    ensures |r| == |s| - 1
    ensures forall j :: 0 <= j < i ==> r[j] == s[j]
    ensures forall j :: i <= j < |r| ==> r[j] == s[j + 1]
  {
    s[..i] + s[i + 1..]
  }

  /** The lookup returns exactly the record at the first matching position. */
  lemma {:induction false} LookupAtFirstIndex(s: seq<Curso>, id: string)
    ensures FirstIndex(s, id).Some? ==> Lookup(s, id) == Some(s[FirstIndex(s, id).value])
    ensures FirstIndex(s, id).None? ==> Lookup(s, id) == None
  {
    if s != [] && s[0].id != Some(id) {
      LookupAtFirstIndex(s[1..], id);
    }
  }

  /** A position holding `id` with no earlier record holding it is the first match. */
  lemma {:induction false} FirstIndexAt(s: seq<Curso>, id: string, i: nat)
    requires i < |s| && s[i].id == Some(id)
    requires forall j :: 0 <= j < i ==> s[j].id != Some(id)
    ensures FirstIndex(s, id) == Some(i)
  {
    if i > 0 {
      FirstIndexAt(s[1..], id, i - 1);
    }
  }

  /** Matching by value (list.index, list.remove) on the record the id scan
      found lands on the first id match: every earlier record has another id,
      so none of them equals it. */
  lemma IndexOfFirstMatch(s: seq<Curso>, id: string, i: nat)
    requires FirstIndex(s, id) == Some(i)
    ensures s[i] in s && IndexOf(s, s[i]) == i
  {
  }

  /** A record appended with a fresh id is what a lookup of that id finds. */
  lemma {:induction false} LookupAppendFresh(s: seq<Curso>, c: Curso, k: string)
    requires Fresh(s, k) && c.id == Some(k)
    ensures Lookup(s + [c], k) == Some(c)
  {
    if s != [] {
      assert (s + [c])[1..] == s[1..] + [c];
      LookupAppendFresh(s[1..], c, k);
    }
  }

  /** Appending a record with id `k` changes no lookup of another id. */
  lemma {:induction false} LookupAppendOther(s: seq<Curso>, c: Curso, k: string, other: string)
    requires c.id == Some(k) && other != k
    ensures Lookup(s + [c], other) == Lookup(s, other)
  {
    if s != [] {
      assert (s + [c])[1..] == s[1..] + [c];
      LookupAppendOther(s[1..], c, k, other);
    }
  }

  /** Overwriting the first match of `id` with a record carrying that id
      makes the lookup of `id` find the new record. */
  lemma LookupOverwrite(s: seq<Curso>, id: string, i: nat, p: Curso)
    requires FirstIndex(s, id) == Some(i) && p.id == Some(id)
    ensures Lookup(s[i := p], id) == Some(p)
  {
    var t := s[i := p];
    FirstIndexAt(t, id, i);
    LookupAtFirstIndex(t, id);
  }

  /** Overwriting the first match of `id` with a record carrying that id
      changes no lookup of another id. */
  lemma {:induction false} LookupOverwriteOther(s: seq<Curso>, id: string, i: nat, p: Curso, other: string)
    requires i < |s| && s[i].id == Some(id) && p.id == Some(id) && other != id
    ensures Lookup(s[i := p], other) == Lookup(s, other)
  {
    if i > 0 {
      assert s[i := p][1..] == s[1..][i - 1 := p];
      LookupOverwriteOther(s[1..], id, i - 1, p, other);
    }
  }

  /** Removing one record with id `id` changes no lookup of another id. */
  lemma {:induction false} LookupRemoveOther(s: seq<Curso>, id: string, i: nat, other: string)
    requires i < |s| && s[i].id == Some(id) && other != id
    ensures Lookup(RemoveAt(s, i), other) == Lookup(s, other)
  {
    if i > 0 {
      assert RemoveAt(s, i)[1..] == RemoveAt(s[1..], i - 1);
      LookupRemoveOther(s[1..], id, i - 1, other);
    } else {
      assert RemoveAt(s, i) == s[1..];
    }
  }

  /** With unique ids, removing the record with id `id` leaves none with it. */
  lemma LookupRemoveUnique(s: seq<Curso>, id: string, i: nat)
    requires UniqueIds(s) && FirstIndex(s, id) == Some(i)
    ensures Lookup(RemoveAt(s, i), id) == None
  {
    var r := RemoveAt(s, i);
    forall j | 0 <= j < |r| ensures r[j].id != Some(id) {
      if j < i { assert r[j] == s[j]; } else { assert r[j] == s[j + 1]; }
    }
  }

  /** Appending a record with a fresh, non-empty id keeps ids present, non-empty
      and unique. */
  lemma AppendFreshKeepsUnique(s: seq<Curso>, c: Curso, k: string)
    requires UniqueIds(s) && Fresh(s, k) && k != "" && c.id == Some(k)
    ensures UniqueIds(s + [c])
  {
    var t := s + [c];
    forall i, j | 0 <= i < |t| && 0 <= j < |t| && i != j ensures t[i].id != t[j].id {
      if i < |s| && j < |s| {
        assert t[i] == s[i] && t[j] == s[j];
      }
    }
  }

  /** Overwriting a record with one that carries the same id keeps ids present,
      non-empty and unique. */
  lemma OverwriteSameIdKeepsUnique(s: seq<Curso>, i: nat, p: Curso)
    requires UniqueIds(s) && i < |s| && p.id == s[i].id
    ensures UniqueIds(s[i := p])
  {
  }

  /** Removing a record keeps ids present, non-empty and unique. */
  lemma RemoveKeepsUnique(s: seq<Curso>, i: nat)
    requires UniqueIds(s) && i < |s|
    ensures UniqueIds(RemoveAt(s, i))
  {
    var r := RemoveAt(s, i);
    forall a, b | 0 <= a < |r| && 0 <= b < |r| && a != b ensures r[a].id != r[b].id {
      var a' := if a < i then a else a + 1;
      var b' := if b < i then b else b + 1;
      assert r[a] == s[a'] && r[b] == s[b'];
    }
  }
}
