/**
 * `parse_helix_coordinates`: for every file of the directory listing except
 * the first entry, drop the particles whose score is below the hard-coded
 * threshold and keep the x and y columns, index-aligned, under the file name.
 * A file is its already-parsed table of particles; the listing is given.
 */
module HelixLoader {

  /** A score cell: a number, or an empty cell that the table reader turns into NaN. */
  datatype Score = Value(v: real) | Missing

  /** One particle: a row of the per-title table. */
  datatype Particle = Particle(x: real, y: real, score: Score)

  /** The threshold actually applied; the `threshold` argument is never read. */
  const ThresholdScore: real := -2.5

  /** `df.score < threshold_score`: false on NaN, so a missing score is never dropped. */
  predicate Below(p: Particle) {
    p.score.Value? && p.score.v < ThresholdScore
  }

  /** `a` is `b` with some elements left out, the rest in their original order. */
  predicate IsSubsequence<T(==)>(a: seq<T>, b: seq<T>)
    decreases |b|
  {
    if a == [] then true
    else if b == [] then false
    else if a[0] == b[0] then IsSubsequence(a[1..], b[1..])
    else IsSubsequence(a, b[1..])
  }

  /** The table with every particle scoring below the threshold removed. */
  function DropBelow(rows: seq<Particle>): (kept: seq<Particle>)
    ensures |kept| <= |rows|
    ensures forall i :: 0 <= i < |kept| ==> !Below(kept[i])
  {
    if rows == [] then []
    else
      var rest := DropBelow(rows[1..]);
      if Below(rows[0]) then rest else [rows[0]] + rest
  }

  /**
   * The filter keeps the particles not below the threshold, in their original
   * order, each as often as the table holds it, and drops all the others.
   */
  lemma {:induction false} DropBelowSpec(rows: seq<Particle>)
    ensures IsSubsequence(DropBelow(rows), rows)
    ensures forall p :: multiset(DropBelow(rows))[p] == if Below(p) then 0 else multiset(rows)[p]
  {
    if rows != [] {
      DropBelowSpec(rows[1..]);
      assert rows == [rows[0]] + rows[1..];
      var rest := DropBelow(rows[1..]);
      if !Below(rows[0]) {
        assert ([rows[0]] + rest)[1..] == rest;
      }
    }
  }

  /** The x and y columns of a table, as `to_numpy()` returns them. */
  function Columns(rows: seq<Particle>): (cols: (seq<real>, seq<real>))
    ensures |cols.0| == |cols.1| == |rows|
    ensures forall i :: 0 <= i < |rows| ==> cols.0[i] == rows[i].x && cols.1[i] == rows[i].y
  {
    if rows == [] then ([], [])
    else
      var rest := Columns(rows[1..]);
      ([rows[0].x] + rest.0, [rows[0].y] + rest.1)
  }

  /** The loader's result: file name |-> (x column, y column). */
  type Library = map<string, (seq<real>, seq<real>)>

  /** What one file contributes: the columns of its particles not below the threshold. */
  function Entry(table: seq<Particle>): (seq<real>, seq<real>) {
    Columns(DropBelow(table))
  }

  /** The loop over the visited names: each name is (re)bound to the entry of its file. */
  function Load(names: seq<string>, read: string -> seq<Particle>, library: Library): (r: Library)
    ensures r.Keys == library.Keys + set n | n in names
    ensures forall n :: n in names ==> r[n] == Entry(read(n))
    ensures forall n :: n in library && n !in names ==> r[n] == library[n]
  {
    if names == [] then library
    else Load(names[1..], read, library[names[0] := Entry(read(names[0]))])
  }

  /** The listing with its first entry skipped, as `os.listdir(path)[1:]`. */
  function AfterFirst(listing: seq<string>): (r: seq<string>)
    ensures listing == [] ==> r == []
    ensures listing != [] ==> [listing[0]] + r == listing
  {
    if listing == [] then [] else listing[1..]
  }

  /**
   * `parse_helix_coordinates(path, threshold)`: `listing` is the directory's
   * entries in the order listed, `read` the table stored in each file.
   */
  function ParseHelix(listing: seq<string>, read: string -> seq<Particle>, threshold: real): (r: Library)
    ensures r.Keys == set n | n in AfterFirst(listing)
    ensures forall n :: n in r ==> r[n] == Entry(read(n))
  {
    Load(AfterFirst(listing), read, map[])
  }

  /** A particle of the table survives the filter iff it is not below the threshold. */
  lemma KeptIffNotBelow(table: seq<Particle>, p: Particle)
    requires p in table
    ensures p in DropBelow(table) <==> !Below(p)
  {
    DropBelowSpec(table);
    assert multiset(table)[p] > 0;
  }

  /** Filtering a concatenation filters each part. */
  lemma {:induction false} DropBelowAppend(a: seq<Particle>, b: seq<Particle>)
    ensures DropBelow(a + b) == DropBelow(a) + DropBelow(b)
  {
    if a == [] {
      assert a + b == b;
    } else {
      assert (a + b)[0] == a[0];
      assert (a + b)[1..] == a[1..] + b;
      DropBelowAppend(a[1..], b);
      var rest := DropBelow(a[1..]) + DropBelow(b);
      if Below(a[0]) {
        assert DropBelow(a + b) == rest;
      } else {
        assert DropBelow(a + b) == [a[0]] + rest;
      }
    }
  }

  /** Filtering again removes nothing more. */
  lemma {:induction false} DropBelowIdempotent(table: seq<Particle>)
    ensures DropBelow(DropBelow(table)) == DropBelow(table)
  {
    if table != [] {
      DropBelowIdempotent(table[1..]);
      if !Below(table[0]) {
        assert ([table[0]] + DropBelow(table[1..]))[1..] == DropBelow(table[1..]);
      }
    }
  }

  /** The `threshold` argument has no effect on the result. */
  lemma ThresholdIgnored(listing: seq<string>, read: string -> seq<Particle>, t1: real, t2: real)
    ensures ParseHelix(listing, read, t1) == ParseHelix(listing, read, t2)
  {
  }

  /** The first listed entry gets no key unless it is listed again; every other entry gets one. */
  lemma FirstEntrySkipped(listing: seq<string>, read: string -> seq<Particle>, threshold: real)
    requires |listing| > 0
    ensures listing[0] !in listing[1..] ==> listing[0] !in ParseHelix(listing, read, threshold)
    ensures forall i :: 0 < i < |listing| ==> listing[i] in ParseHelix(listing, read, threshold)
  {
    var r := ParseHelix(listing, read, threshold);
    forall i | 0 < i < |listing| ensures listing[i] in r {
      assert listing[i] == listing[1..][i - 1];
    }
  }

  /** Scores -3.0, -2.0, -1.0 with threshold -2.5: only the last two particles remain. */
  lemma ScoreExample()
    ensures var table := [Particle(1.0, 10.0, Value(-3.0)), Particle(2.0, 20.0, Value(-2.0)),
                          Particle(3.0, 30.0, Value(-1.0))];
      && DropBelow(table) == table[1..]
      && Entry(table).0 == [2.0, 3.0] && Entry(table).1 == [20.0, 30.0]
  {
    var table := [Particle(1.0, 10.0, Value(-3.0)), Particle(2.0, 20.0, Value(-2.0)),
                  Particle(3.0, 30.0, Value(-1.0))];
    var t2 := [table[2]];
    assert table[2..] == t2 && t2[1..] == [];
    assert DropBelow(t2) == t2;
    assert table[1..][1..] == t2;
    assert DropBelow(table[1..]) == [table[1]] + t2;
  }
}
