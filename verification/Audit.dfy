/** The hash-chained audit log: every row hashes its fields together with the previous row's hash. */
module Audit {
  import opened Common
  import opened Text

  /** The hash and the rendering of a timestamp. */
  datatype Hasher = Hasher(hash: string -> string, showTime: real -> string)

  datatype Entry = Entry(ts: real, requestHash: string, code: string, root: Option<string>, actor: Option<string>,
      tool: string)

  datatype Row = Row(entry: Entry, prevHash: string, rowHash: string)

  function Shown(s: Option<string>): string {
    if s.Some? then s.value else "None"
  }

  /** The row's fields joined by pipes; the previous hash comes last. */
  function RowText(e: Entry, prev: string, h: Hasher): string {
    h.showTime(e.ts) + "|" +
    (e.requestHash + "|" + (e.code + "|" + (Shown(e.root) + "|" + (Shown(e.actor) + "|" + (e.tool + "|" + prev)))))
  }

  function RowHash(e: Entry, prev: string, h: Hasher): string {
    h.hash(RowText(e, prev, h))
  }

  /** The hash of the row before position i. */
  function Before(rows: seq<Row>, i: nat): string
    requires i <= |rows|
  {
    if i == 0 then "" else rows[i - 1].rowHash
  }

  function LastHash(rows: seq<Row>): string {
    Before(rows, |rows|)
  }

  function Recorded(rows: seq<Row>, e: Entry, h: Hasher): seq<Row> {
    rows + [Row(e, LastHash(rows), RowHash(e, LastHash(rows), h))]
  }

  predicate Linked(r: Row, prev: string, h: Hasher) {
    r.prevHash == prev && r.rowHash == RowHash(r.entry, prev, h)
  }

  /** Every row names its predecessor's hash and carries the hash of its own text. */
  predicate Chained(rows: seq<Row>, h: Hasher) {
    forall i {:trigger Before(rows, i)} :: 0 <= i < |rows| ==> Linked(rows[i], Before(rows, i), h)
  }

  class DecisionAuditLog {
    const hasher: Hasher
    var rows: seq<Row>

    constructor (hasher: Hasher)
      ensures rows == [] && this.hasher == hasher
    {
      this.hasher := hasher;
      rows := [];
    }

    method Record(e: Entry) returns (rowHash: string)
      modifies this
      ensures rows == Recorded(old(rows), e, hasher)
      ensures rowHash == LastHash(rows)
      ensures old(Chained(rows, hasher)) ==> Chained(rows, hasher)
    {
      var prev := LastHash(rows);
      rowHash := RowHash(e, prev, hasher);
      RecordKeepsChain(rows, e, hasher);
      rows := rows + [Row(e, prev, rowHash)];
    }

    method VerifyChain() returns (ok: bool)
      ensures ok <==> Chained(rows, hasher)
    {
      var prev := "";
      for i := 0 to |rows|
        invariant prev == Before(rows, i)
        invariant forall k {:trigger Before(rows, k)} :: 0 <= k < i ==> Linked(rows[k], Before(rows, k), hasher)
      {
        var expected := RowHash(rows[i].entry, prev, hasher);
        if rows[i].prevHash != prev || rows[i].rowHash != expected {
          return false;
        }
        prev := rows[i].rowHash;
      }
      return true;
    }
  }

  /** Dropping a tail always verifies. */
  lemma PrefixVerifies(rows: seq<Row>, n: nat, h: Hasher)
    requires Chained(rows, h) && n <= |rows|
    ensures Chained(rows[..n], h)
  {
    forall i | 0 <= i < n
      ensures Linked(rows[..n][i], Before(rows[..n], i), h)
    {
      assert Before(rows[..n], i) == Before(rows, i);
    }
  }

  lemma RecordKeepsChain(rows: seq<Row>, e: Entry, h: Hasher)
    ensures Chained(rows, h) ==> Chained(Recorded(rows, e, h), h)
  {
    var longer := Recorded(rows, e, h);
    if Chained(rows, h) {
      forall i | 0 <= i < |longer|
        ensures Linked(longer[i], Before(longer, i), h)
      {
        assert Before(longer, i) == Before(rows, i);
      }
    }
  }

  function RecordedAll(rows: seq<Row>, entries: seq<Entry>, h: Hasher): seq<Row>
    decreases |entries|
  {
    if |entries| == 0 then rows else RecordedAll(Recorded(rows, entries[0], h), entries[1..], h)
  }

  /** Every log built by recording verifies. */
  lemma {:induction false} RecordedLogVerifies(rows: seq<Row>, entries: seq<Entry>, h: Hasher)
    requires Chained(rows, h)
    ensures Chained(RecordedAll(rows, entries, h), h)
    decreases |entries|
  {
    if |entries| > 0 {
      RecordKeepsChain(rows, entries[0], h);
      RecordedLogVerifies(Recorded(rows, entries[0], h), entries[1..], h);
    }
  }

  // ----- what the last hash binds -----

  /** Distinct texts have distinct hashes, which are nonempty and hold no pipe, like hex digests. */
  ghost predicate HexDigest(h: Hasher) {
    && (forall a, b :: h.hash(a) == h.hash(b) ==> a == b)
    && (forall a :: h.hash(a) != "" && '|' !in h.hash(a))
  }

  ghost predicate SameTexts(a: seq<Row>, b: seq<Row>, h: Hasher) {
    |a| == |b| && forall i :: 0 <= i < |a| ==>
      RowText(a[i].entry, a[i].prevHash, h) == RowText(b[i].entry, b[i].prevHash, h)
  }

  lemma DropLast(rows: seq<Row>, h: Hasher)
    requires |rows| > 0 && Chained(rows, h)
    ensures Chained(rows[..|rows| - 1], h) && Linked(rows[|rows| - 1], LastHash(rows[..|rows| - 1]), h)
  {
    PrefixVerifies(rows, |rows| - 1, h);
    assert Before(rows, |rows| - 1) == LastHash(rows[..|rows| - 1]);
  }

  lemma LastHashPipeFree(rows: seq<Row>, h: Hasher)
    requires HexDigest(h) && Chained(rows, h)
    ensures '|' !in LastHash(rows) && (LastHash(rows) == "" <==> rows == [])
  {
    if |rows| > 0 { DropLast(rows, h); }
  }

  function Fields(e: Entry, h: Hasher): string {
    h.showTime(e.ts) + "|" + e.requestHash + "|" + e.code + "|" + Shown(e.root) + "|" + Shown(e.actor) + "|" + e.tool
  }

  lemma TextEndsWithPrev(e: Entry, prev: string, h: Hasher)
    ensures RowText(e, prev, h) == Fields(e, h) + "|" + prev
  {}

  lemma SameTextSamePrev(e: Entry, p: string, f: Entry, q: string, h: Hasher)
    requires RowText(e, p, h) == RowText(f, q, h) && '|' !in p && '|' !in q
    ensures p == q
  {
    TextEndsWithPrev(e, p, h);
    TextEndsWithPrev(f, q, h);
    AfterLast('|', Fields(e, h), p, Fields(f, h), q);
  }

  lemma SameTextsSplit(a: seq<Row>, b: seq<Row>, h: Hasher)
    requires |a| > 0 && |b| > 0
    ensures
      var x, y := a[|a| - 1], b[|b| - 1];
      SameTexts(a, b, h) <==>
      SameTexts(a[..|a| - 1], b[..|b| - 1], h) && RowText(x.entry, x.prevHash, h) == RowText(y.entry, y.prevHash, h)
  {
    var c, d := a[..|a| - 1], b[..|b| - 1];
    assert a == c + [a[|a| - 1]] && b == d + [b[|b| - 1]];
    assert forall i :: 0 <= i < |c| ==> a[i] == c[i];
    assert forall i :: 0 <= i < |d| ==> b[i] == d[i];
  }

  /** Two verified logs share their last hash exactly when their rows read the same, row for row. */
  lemma {:induction false} LastHashBindsTexts(a: seq<Row>, b: seq<Row>, h: Hasher)
    requires HexDigest(h) && Chained(a, h) && Chained(b, h)
    ensures LastHash(a) == LastHash(b) <==> SameTexts(a, b, h)
    decreases |a|
  {
    LastHashPipeFree(a, h);
    LastHashPipeFree(b, h);
    if |a| > 0 && |b| > 0 {
      var c, d := a[..|a| - 1], b[..|b| - 1];
      DropLast(a, h);
      DropLast(b, h);
      LastHashBindsTexts(c, d, h);
      LastHashPipeFree(c, h);
      LastHashPipeFree(d, h);
      SameTextsSplit(a, b, h);
      var x, y := a[|a| - 1], b[|b| - 1];
      if RowText(x.entry, x.prevHash, h) == RowText(y.entry, y.prevHash, h) {
        SameTextSamePrev(x.entry, x.prevHash, y.entry, y.prevHash, h);
      }
    }
  }

  /** Fields before the tool that hold no pipe, and no name that reads like a missing one. */
  predicate Readable(e: Entry) {
    && '|' !in e.requestHash && '|' !in e.code
    && '|' !in Shown(e.root) && '|' !in Shown(e.actor)
    && e.root != Some("None") && e.actor != Some("None")
  }

  /** The two times, where they occur, read differently unless they are the same, and hold no pipe. */
  predicate ReadableTimes(s: real, t: real, h: Hasher) {
    && (h.showTime(s) == h.showTime(t) ==> s == t)
    && '|' !in h.showTime(s) && '|' !in h.showTime(t)
  }

  lemma TextDeterminesEntry(e: Entry, p: string, f: Entry, q: string, h: Hasher)
    requires Readable(e) && Readable(f) && ReadableTimes(e.ts, f.ts, h) && RowText(e, p, h) == RowText(f, q, h)
    requires '|' !in p && '|' !in q
    ensures e == f && p == q
  {
    var e1 := e.tool + "|" + p;
    var f1 := f.tool + "|" + q;
    var e2 := Shown(e.actor) + "|" + e1;
    var f2 := Shown(f.actor) + "|" + f1;
    var e3 := Shown(e.root) + "|" + e2;
    var f3 := Shown(f.root) + "|" + f2;
    var e4 := e.code + "|" + e3;
    var f4 := f.code + "|" + f3;
    BeforeFirst('|', h.showTime(e.ts), e.requestHash + "|" + e4, h.showTime(f.ts), f.requestHash + "|" + f4);
    BeforeFirst('|', e.requestHash, e4, f.requestHash, f4);
    BeforeFirst('|', e.code, e3, f.code, f3);
    BeforeFirst('|', Shown(e.root), e2, Shown(f.root), f2);
    BeforeFirst('|', Shown(e.actor), e1, Shown(f.actor), f1);
    AfterLast('|', e.tool, p, f.tool, q);
  }

  /** A row of a log that verifies is made of its entry and the hash before it, which holds no pipe. */
  lemma RowOfChain(rows: seq<Row>, i: nat, h: Hasher)
    requires HexDigest(h) && Chained(rows, h) && i < |rows|
    ensures rows[i] == Row(rows[i].entry, rows[i].prevHash, RowHash(rows[i].entry, rows[i].prevHash, h))
    ensures '|' !in rows[i].prevHash
  {
    assert rows[i].prevHash == Before(rows, i);
    if i > 0 { assert Linked(rows[i - 1], Before(rows, i - 1), h); }
  }

  lemma SameRow(a: seq<Row>, b: seq<Row>, i: nat, h: Hasher)
    requires HexDigest(h) && Chained(a, h) && Chained(b, h) && i < |a| && i < |b|
    requires Readable(a[i].entry) && Readable(b[i].entry) && ReadableTimes(a[i].entry.ts, b[i].entry.ts, h)
    requires RowText(a[i].entry, a[i].prevHash, h) == RowText(b[i].entry, b[i].prevHash, h)
    ensures a[i] == b[i]
  {
    RowOfChain(a, i, h);
    RowOfChain(b, i, h);
    TextDeterminesEntry(a[i].entry, a[i].prevHash, b[i].entry, b[i].prevHash, h);
  }

  /** Chain binding: verified logs of readable entries, at times that read differently, with the same last hash are
      identical. */
  lemma LastHashBindsLog(a: seq<Row>, b: seq<Row>, h: Hasher)
    requires HexDigest(h) && Chained(a, h) && Chained(b, h)
    requires forall r :: r in a || r in b ==> Readable(r.entry)
    requires forall r, s :: r in a && s in b ==> ReadableTimes(r.entry.ts, s.entry.ts, h)
    requires LastHash(a) == LastHash(b)
    ensures a == b
  {
    LastHashBindsTexts(a, b, h);
    forall i | 0 <= i < |a|
      ensures a[i] == b[i]
    {
      assert a[i] in a && b[i] in b;
      SameRow(a, b, i, h);
    }
  }

  /** Without readable fields the chain does not separate logs: a pipe before the tool moves the
      field boundaries, a root named None reads like no root, and two times that read alike are one. */
  lemma UnreadableFieldsCollide(h: Hasher)
    ensures
      var a := Entry(0.0, "r", "A", Some("B|C"), Some("D"), "T");
      var b := Entry(0.0, "r", "A|B", Some("C"), Some("D"), "T");
      a != b && Recorded([], a, h)[0].rowHash == Recorded([], b, h)[0].rowHash
    ensures
      var a := Entry(0.0, "r|A", "B", Some("C"), Some("D"), "T");
      var b := Entry(0.0, "r", "A", Some("B|C"), Some("D"), "T");
      a != b && Recorded([], a, h)[0].rowHash == Recorded([], b, h)[0].rowHash
    ensures
      var a := Entry(0.0, "r", "A", Some("C"), Some("D|E"), "T");
      var b := Entry(0.0, "r", "A", Some("C"), Some("D"), "E|T");
      a != b && Recorded([], a, h)[0].rowHash == Recorded([], b, h)[0].rowHash
    ensures
      var a := Entry(0.0, "r", "A", Some("None"), Some("D"), "T");
      var b := Entry(0.0, "r", "A", None, Some("D"), "T");
      a != b && Recorded([], a, h)[0].rowHash == Recorded([], b, h)[0].rowHash
    ensures forall s, t :: h.showTime(s) == h.showTime(t) ==>
              Recorded([], Entry(s, "r", "A", None, None, "T"), h)[0].rowHash
              == Recorded([], Entry(t, "r", "A", None, None, "T"), h)[0].rowHash
  {
    assert "A" + "|" + ("B|C" + "|" + ("D" + "|" + ("T" + "|" + "")))
        == "A|B" + "|" + ("C" + "|" + ("D" + "|" + ("T" + "|" + "")));
    assert "r|A" + "|" + ("B" + "|" + ("C" + "|" + ("D" + "|" + ("T" + "|" + ""))))
        == "r" + "|" + ("A" + "|" + ("B|C" + "|" + ("D" + "|" + ("T" + "|" + ""))));
    assert "D|E" + "|" + ("T" + "|" + "") == "D" + "|" + ("E|T" + "|" + "");
  }

  // ----- what edits and deletions break -----

  /** Editing one row of a log that verifies leaves one that verifies exactly when the new row keeps the
      previous hash, carries its own, and has the old one's hash unless it is the last. */
  lemma EditVerifies(rows: seq<Row>, i: nat, r: Row, h: Hasher)
    requires Chained(rows, h) && i < |rows|
    ensures Chained(rows[i := r], h) <==>
            Linked(r, rows[i].prevHash, h) && (i == |rows| - 1 || r.rowHash == rows[i].rowHash)
  {
    var edited := rows[i := r];
    assert Before(edited, i) == Before(rows, i) == rows[i].prevHash;
    assert i < |rows| - 1 ==> Before(edited, i + 1) == r.rowHash && Before(rows, i + 1) == rows[i].rowHash;
    if Linked(r, rows[i].prevHash, h) && (i == |rows| - 1 || r.rowHash == rows[i].rowHash) {
      forall k | 0 <= k < |rows|
        ensures Linked(edited[k], Before(edited, k), h)
      {
        assert Before(edited, k) == Before(rows, k);
      }
    }
  }

  /** Deleting one row of a log that verifies does exactly when it is the last, or carries its
      predecessor's hash itself. */
  lemma DeletionVerifies(rows: seq<Row>, i: nat, h: Hasher)
    requires Chained(rows, h) && i < |rows|
    ensures Chained(rows[..i] + rows[i + 1..], h) <==> i == |rows| - 1 || rows[i].rowHash == rows[i].prevHash
  {
    var left := rows[..i] + rows[i + 1..];
    assert Before(left, i) == Before(rows, i) == rows[i].prevHash;
    assert i < |rows| - 1 ==> left[i] == rows[i + 1] && Before(rows, i + 1) == rows[i].rowHash;
    if i == |rows| - 1 || rows[i].rowHash == rows[i].prevHash {
      forall k | 0 <= k < |left|
        ensures Linked(left[k], Before(left, k), h)
      {
        assert Before(left, k) == Before(rows, if k < i then k else k + 1);
      }
    }
  }

  /** With an ideal hash, an edit that verifies reads exactly as before or is of the last row. */
  lemma EditReadsTheSame(rows: seq<Row>, i: nat, r: Row, h: Hasher)
    requires HexDigest(h) && Chained(rows, h) && i < |rows| && Chained(rows[i := r], h)
    ensures i == |rows| - 1 || RowText(r.entry, r.prevHash, h) == RowText(rows[i].entry, rows[i].prevHash, h)
  {
    EditVerifies(rows, i, r, h);
    assert Before(rows, i) == rows[i].prevHash;
  }
}
