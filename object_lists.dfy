/** The threaded people-list benchmark, without its thread pool: deterministic
    `Person` records, the per-slice transformation that duplicates active people
    with an older copy, and the combination of the per-slice counts and checksums. */
module ObjectLists {
  import opened Text
  import opened IntSums
  import opened Chunking

  datatype Person = Person(personId: int, firstName: string, lastName: string, age: int, active: bool)

  /** Person number `i` of `build_people`. */
  function NewPerson(i: nat): Person {
    Person(i, "Name" + NatToString(i), "Surname" + NatToString(i % 100), i % 80 + 18, i % 2 == 0)
  }

  /** The list `build_people(n)` returns. */
  function People(n: int): seq<Person> {
    seq(Max(n, 0), i requires 0 <= i => NewPerson(i))
  }

  /** `build_people(n)`: the loop appending one person per index. */
  method BuildPeople(n: int) returns (people: seq<Person>)
    ensures people == People(n)
  {
    people := [];
    var index := 0;
    while index < n
      invariant 0 <= index <= Max(n, 0)
      invariant people == People(index)
    {
      people := people + [NewPerson(index)];
      index := index + 1;
    }
  }

  /** Person `i` has id `i`, an age between 18 and 97, and is active iff `i` is even. */
  lemma PeopleFacts(n: int, i: int)
    requires 0 <= i < n
    ensures People(n)[i].personId == i
    ensures 18 <= People(n)[i].age <= 97
    ensures People(n)[i].active <==> i % 2 == 0
  {
  }

  function ActiveCount(ps: seq<Person>): nat {
    if ps == [] then 0 else ActiveCount(ps[..|ps| - 1]) + (if ps[|ps| - 1].active then 1 else 0)
  }

  /** In a list whose people are active exactly at the even positions, half of them,
      rounded up, are active. */
  lemma {:induction false} AlternatingActiveCount(ps: seq<Person>)
    requires forall i :: 0 <= i < |ps| ==> (ps[i].active <==> i % 2 == 0)
    ensures ActiveCount(ps) == (|ps| + 1) / 2
  {
    if ps != [] {
      var init := ps[..|ps| - 1];
      assert forall i :: 0 <= i < |init| ==> init[i] == ps[i];
      AlternatingActiveCount(init);
    }
  }

  /** Half of the benchmark's people, rounded up, are active. */
  lemma PeopleActiveCount(n: nat)
    ensures ActiveCount(People(n)) == (n + 1) / 2
  {
    forall i | 0 <= i < n
      ensures People(n)[i].active <==> i % 2 == 0
    {
      PeopleFacts(n, i);
    }
    AlternatingActiveCount(People(n));
  }

  /** Python's `xs[start:end]` for non-negative bounds: clamped to the list, empty when reversed. */
  function PySlice<T>(xs: seq<T>, start: nat, end: nat): (r: seq<T>)
    ensures start <= end <= |xs| ==> r == xs[start..end]
  {
    var lo := if start <= |xs| then start else |xs|;
    var hi := if end <= |xs| then end else |xs|;
    if hi <= lo then [] else xs[lo..hi]
  }

  /** The copy appended after an active person: same id, names and flag, one year older. */
  function Older(p: Person): Person {
    p.(age := p.age + 1)
  }

  /** What one person contributes to `processed`. */
  function Emit(p: Person): seq<Person> {
    if p.active then [p, Older(p)] else [p]
  }

  /** The `processed` list built from a slice: every person in order, each active one
      immediately followed by its older copy. */
  function Expand(ps: seq<Person>): seq<Person> {
    if ps == [] then [] else Expand(ps[..|ps| - 1]) + Emit(ps[|ps| - 1])
  }

  lemma {:induction false} ExpandAppend(a: seq<Person>, b: seq<Person>)
    ensures Expand(a + b) == Expand(a) + Expand(b)
    decreases |b|
  {
    if b == [] {
      assert a + b == a;
    } else {
      assert (a + b)[..|a + b| - 1] == a + b[..|b| - 1];
      ExpandAppend(a, b[..|b| - 1]);
    }
  }

  /** `processed` holds the slice plus one copy per active person. */
  lemma {:induction false} ExpandCount(ps: seq<Person>)
    ensures |Expand(ps)| == |ps| + ActiveCount(ps)
  {
    if ps != [] {
      ExpandCount(ps[..|ps| - 1]);
    }
  }

  /** `f"{p.first_name} {p.last_name}"`. */
  function DisplayName(p: Person): string {
    p.firstName + " " + p.lastName
  }

  /** A person's term of the checksum: display-name length plus age. */
  function Weight(p: Person): int {
    |DisplayName(p)| + p.age
  }

  /** What an active person's copy adds to the checksum. */
  function CopyWeight(p: Person): int {
    if p.active then Weight(p) + 1 else 0
  }

  /** The checksum of `processed`: every person's weight, plus each copy's, which is one more. */
  lemma {:induction false} ExpandChecksum(ps: seq<Person>)
    ensures SumBy(Expand(ps), Weight) == SumBy(ps, Weight) + SumBy(ps, CopyWeight)
  {
    if ps != [] {
      var init, p := ps[..|ps| - 1], ps[|ps| - 1];
      ExpandChecksum(init);
      assert ps == init + [p];
      SumByAppend(Expand(init), Emit(p), Weight);
      SumByAppend(init, [p], Weight);
      SumByAppend(init, [p], CopyWeight);
      assert SumBy(Emit(p), Weight) == Weight(p) + CopyWeight(p) by {
        if p.active {
          assert Emit(p)[1..] == [Older(p)];
          assert [Older(p)][1..] == [];
          assert DisplayName(Older(p)) == DisplayName(p);
        } else {
          assert Emit(p)[1..] == [];
        }
      }
    }
  }

  /** `process_people_slice(start, end, people)`: the loop building `processed`, then its
      length and checksum. */
  method ProcessPeopleSlice(start: nat, end: nat, people: seq<Person>) returns (count: int, checksum: int)
    ensures count == |Expand(PySlice(people, start, end))|
    ensures checksum == SumBy(Expand(PySlice(people, start, end)), Weight)
  {
    var slice := PySlice(people, start, end);
    var processed: seq<Person> := [];
    var i := 0;
    while i < |slice|
      invariant 0 <= i <= |slice|
      invariant processed == Expand(slice[..i])
    {
      var person := slice[i];
      assert slice[..i + 1][..i] == slice[..i];
      processed := processed + [person];
      if person.active {
        var duplicated := Person(person.personId, person.firstName, person.lastName, person.age + 1, person.active);
        processed := processed + [duplicated];
      }
      i := i + 1;
    }
    assert slice[..i] == slice;
    count := |processed|;
    checksum := SumBy(processed, Weight);
  }

  /** What a worker returns for the range `c`. */
  function SliceResult(c: (int, int), people: seq<Person>): (int, int) {
    if 0 <= c.0 && 0 <= c.1 then
      var processed := Expand(PySlice(people, c.0, c.1));
      (|processed|, SumBy(processed, Weight))
    else (0, 0)
  }

  function SliceResults(cs: seq<(int, int)>, people: seq<Person>): seq<(int, int)> {
    seq(|cs|, j requires 0 <= j < |cs| => SliceResult(cs[j], people))
  }

  function Count(r: (int, int)): int { r.0 }

  function Checksum(r: (int, int)): int { r.1 }

  lemma SliceResultOf(c: (int, int), people: seq<Person>)
    requires 0 <= c.0 <= c.1 <= |people|
    ensures SliceResult(c, people).0 == |Expand(people[c.0..c.1])|
    ensures SliceResult(c, people).1 == SumBy(Expand(people[c.0..c.1]), Weight)
  {
  }

  lemma ExpandLengthAppend(a: seq<Person>, b: seq<Person>)
    ensures |Expand(a + b)| == |Expand(a)| + |Expand(b)|
  {
    ExpandAppend(a, b);
  }

  lemma ResultsStep(people: seq<Person>, cs: seq<(int, int)>, f: ((int, int)) -> int)
    requires cs != []
    ensures SumBy(SliceResults(cs, people), f) == f(SliceResult(cs[0], people)) + SumBy(SliceResults(cs[1..], people), f)
  {
    assert SliceResults(cs, people)[1..] == SliceResults(cs[1..], people);
  }

  lemma PiecesStep(people: seq<Person>, cs: seq<(int, int)>)
    requires cs != [] && forall c :: c in cs ==> 0 <= c.0 <= c.1 <= |people|
    ensures Concat(Pieces(people, cs)) == people[cs[0].0..cs[0].1] + Concat(Pieces(people, cs[1..]))
  {
    assert Pieces(people, cs)[1..] == Pieces(people, cs[1..]);
  }

  /** The counts over ranges inside the list add up to the count of their glued pieces. */
  lemma {:induction false} CountsOfPieces(people: seq<Person>, cs: seq<(int, int)>)
    requires forall c :: c in cs ==> 0 <= c.0 <= c.1 <= |people|
    ensures SumBy(SliceResults(cs, people), Count) == |Expand(Concat(Pieces(people, cs)))|
    decreases |cs|
  {
    if cs != [] {
      CountsOfPieces(people, cs[1..]);
      ResultsStep(people, cs, Count);
      PiecesStep(people, cs);
      SliceResultOf(cs[0], people);
      ExpandLengthAppend(people[cs[0].0..cs[0].1], Concat(Pieces(people, cs[1..])));
    }
  }

  /** The checksums over ranges inside the list add up to the checksum of their glued pieces. */
  lemma {:induction false} ChecksumsOfPieces(people: seq<Person>, cs: seq<(int, int)>)
    requires forall c :: c in cs ==> 0 <= c.0 <= c.1 <= |people|
    ensures SumBy(SliceResults(cs, people), Checksum) == SumBy(Expand(Concat(Pieces(people, cs))), Weight)
    decreases |cs|
  {
    if cs != [] {
      ChecksumsOfPieces(people, cs[1..]);
      ResultsStep(people, cs, Checksum);
      PiecesStep(people, cs);
      SliceResultOf(cs[0], people);
      var head, rest := people[cs[0].0..cs[0].1], Concat(Pieces(people, cs[1..]));
      ExpandAppend(head, rest);
      SumByAppend(Expand(head), Expand(rest), Weight);
    }
  }

  /** `run_object_list_benchmark`'s result: with at least one worker, the counts plus the
      checksums of the slice results, in any order of completion, are those of processing
      the whole list at once. */
  lemma PeopleTotal(people: seq<Person>, workers: int, results: seq<(int, int)>)
    requires workers >= 1
    requires multiset(results) == multiset(SliceResults(Chunks(|people|, workers).value, people))
    ensures SumBy(results, Count) + SumBy(results, Checksum)
         == |people| + ActiveCount(people) + SumBy(people, Weight) + SumBy(people, CopyWeight)
  {
    var cs := Chunks(|people|, workers).value;
    ChunksPartition(|people|, workers);
    PiecesConcat(people, cs, 0, |people|);
    CountsOfPieces(people, cs);
    ChecksumsOfPieces(people, cs);
    assert Concat(Pieces(people, cs)) == people by {
      if |people| > 0 {
        assert people[0..|people|] == people;
      }
    }
    ExpandCount(people);
    ExpandChecksum(people);
    SumByPermutation(results, SliceResults(cs, people), Count);
    SumByPermutation(results, SliceResults(cs, people), Checksum);
  }
}
