/**
 * The string table walk: a section region holds NUL-terminated strings
 * packed back to back (System V ABI, chapter "Object Files", section
 * "String Table"). A cursor relative to the region start begins at 0; each
 * step reports the cursor and the string found there, then moves past the
 * string and its NUL; the walk ends once the cursor reaches the region size.
 */
module ElfStringTable {
  import opened LittleEndian

  /** One line of the walk's output: a relative offset and the string found there. */
  datatype StringEntry = StringEntry(offset: nat, text: seq<Byte>)

  /** Some NUL byte lies at index `p` or later, so a string read at `p` ends in the buffer. */
  predicate HasNulFrom(buf: seq<Byte>, p: nat) {
    exists q :: p <= q < |buf| && buf[q] == 0
  }

  /** `s` is the maximal run of non-NUL bytes at `p`, and a NUL follows it. */
  predicate IsCStringAt(buf: seq<Byte>, p: nat, s: seq<Byte>) {
    && p + |s| < |buf|
    && buf[p + |s|] == 0
    && forall k | 0 <= k < |s| :: s[k] != 0 && buf[p + k] == s[k]
  }

  /** The NUL-terminated string at byte `p` (what strlen measures), without its NUL. */
  function CStringAt(buf: seq<Byte>, p: nat): (s: seq<Byte>)
    requires HasNulFrom(buf, p)
    ensures IsCStringAt(buf, p, s)
    decreases |buf| - p
  {
    if buf[p] == 0 then []
    else
      assert HasNulFrom(buf, p + 1) by {
        var q :| p <= q < |buf| && buf[q] == 0;
        assert p + 1 <= q;
      }
      [buf[p]] + CStringAt(buf, p + 1)
  }

  /** The string CStringAt reads is the only one that sits at `p`. */
  lemma {:induction false} CStringAtIs(buf: seq<Byte>, p: nat, s: seq<Byte>)
    requires IsCStringAt(buf, p, s)
    ensures HasNulFrom(buf, p) && CStringAt(buf, p) == s
    decreases |s|
  {
    assert buf[p + |s|] == 0;
    if s != [] {
      assert buf[p] == s[0];
      assert IsCStringAt(buf, p + 1, s[1..]) by {
        forall k | 0 <= k < |s| - 1 ensures s[1..][k] != 0 && buf[p + 1 + k] == s[1..][k] {
          assert s[1..][k] == s[k + 1];
        }
      }
      CStringAtIs(buf, p + 1, s[1..]);
    }
  }

  /** The bytes of a string together with its NUL. */
  lemma CStringSlice(buf: seq<Byte>, p: nat, s: seq<Byte>)
    requires IsCStringAt(buf, p, s)
    ensures buf[p..p + |s| + 1] == s + [0]
  {
  }

  /**
   * Every string the walk over the region (`off`, `size`) starts ends inside
   * the buffer: the region is empty, or a NUL lies at or after its last byte.
   * Every cursor of the walk is below `size`, so this covers each strlen.
   */
  predicate TableTerminated(buf: seq<Byte>, off: nat, size: nat) {
    size == 0 || exists q :: off + size - 1 <= q < |buf| && buf[q] == 0
  }

  /** Each entry of `entries` starts right after the previous string and its NUL. */
  predicate Consecutive(entries: seq<StringEntry>) {
    forall i, j | 0 <= i && j == i + 1 < |entries| :: entries[j].offset == entries[i].offset + |entries[i].text| + 1
  }

  /** The relative offset just past the last string reported, or `cursor` when none is. */
  function EndOf(entries: seq<StringEntry>, cursor: nat): nat {
    if entries == [] then cursor
    else entries[|entries| - 1].offset + |entries[|entries| - 1].text| + 1
  }

  /** What the walk reports from relative offset `cursor` to the end of the region. */
  function StringTableFrom(buf: seq<Byte>, off: nat, size: nat, cursor: nat): (entries: seq<StringEntry>)
    requires TableTerminated(buf, off, size)
    ensures entries != [] <==> cursor < size
    decreases size - cursor
  {
    if cursor >= size then []
    else
      assert HasNulFrom(buf, off + cursor) by {
        var q :| off + size - 1 <= q < |buf| && buf[q] == 0;
      }
      var s := CStringAt(buf, off + cursor);
      [StringEntry(cursor, s)] + StringTableFrom(buf, off, size, cursor + |s| + 1)
  }

  /**
   * What the walk reports: offsets from `cursor` on and below `size`, the
   * first at `cursor`, each string the NUL-terminated run at its offset,
   * each offset just past the previous string and its NUL, and the last
   * string reaching the end of the region.
   */
  lemma {:induction false} WalkShape(buf: seq<Byte>, off: nat, size: nat, cursor: nat)
    requires TableTerminated(buf, off, size)
    ensures var entries := StringTableFrom(buf, off, size, cursor);
      && (entries != [] ==> entries[0].offset == cursor && size <= EndOf(entries, cursor))
      && (forall i | 0 <= i < |entries| ::
            && cursor <= entries[i].offset < size
            && IsCStringAt(buf, off + entries[i].offset, entries[i].text))
      && Consecutive(entries)
    decreases size - cursor
  {
    if cursor < size {
      var entries := StringTableFrom(buf, off, size, cursor);
      var s := entries[0].text;
      var next := cursor + |s| + 1;
      var rest := StringTableFrom(buf, off, size, next);
      assert entries == [StringEntry(cursor, s)] + rest;
      WalkShape(buf, off, size, next);
      assert EndOf(entries, cursor) == EndOf(rest, next);
      forall i | 0 < i < |entries|
        ensures cursor <= entries[i].offset < size && IsCStringAt(buf, off + entries[i].offset, entries[i].text)
      {
        assert entries[i] == rest[i - 1];
      }
      forall i, j | 0 <= i && j == i + 1 < |entries|
        ensures entries[j].offset == entries[i].offset + |entries[i].text| + 1
      {
        assert entries[j] == rest[j - 1];
        if i > 0 {
          assert entries[i] == rest[i - 1];
        }
      }
    }
  }

  /**
   * The walk over the string table whose region starts at byte `off` and is
   * `size` bytes long.
   */
  method WalkStringTable(buf: seq<Byte>, off: nat, size: nat) returns (entries: seq<StringEntry>)
    requires TableTerminated(buf, off, size)
    ensures entries == StringTableFrom(buf, off, size, 0)
  {
    entries := [];
    var cursor: nat := 0;
    while cursor < size
      invariant entries + StringTableFrom(buf, off, size, cursor) == StringTableFrom(buf, off, size, 0)
      decreases size - cursor
    {
      assert HasNulFrom(buf, off + cursor) by {
        var q :| off + size - 1 <= q < |buf| && buf[q] == 0;
      }
      var s := CStringAt(buf, off + cursor);
      ghost var rest := StringTableFrom(buf, off, size, cursor + |s| + 1);
      assert StringTableFrom(buf, off, size, cursor) == [StringEntry(cursor, s)] + rest;
      assert (entries + [StringEntry(cursor, s)]) + rest == entries + ([StringEntry(cursor, s)] + rest);
      entries := entries + [StringEntry(cursor, s)];
      cursor := cursor + |s| + 1;
    }
  }

  /** The offsets the walk reports strictly increase. */
  lemma {:induction false} OffsetsIncrease(entries: seq<StringEntry>)
    requires Consecutive(entries)
    ensures forall i, j | 0 <= i < j < |entries| :: entries[i].offset < entries[j].offset
  {
    if entries != [] {
      var init := entries[..|entries| - 1];
      assert Consecutive(init) by {
        forall i | 0 < i < |init| ensures init[i].offset == init[i - 1].offset + |init[i - 1].text| + 1 {
          assert init[i] == entries[i] && init[i - 1] == entries[i - 1];
        }
      }
      OffsetsIncrease(init);
      forall i, j | 0 <= i < j < |entries| ensures entries[i].offset < entries[j].offset {
        if j < |entries| - 1 {
          assert init[i] == entries[i] && init[j] == entries[j];
        } else if i < j - 1 {
          assert init[i] == entries[i] && init[j - 1] == entries[j - 1];
        }
      }
    }
  }

  /** The offsets the walk over a whole region reports strictly increase. */
  lemma WalkOffsetsIncrease(buf: seq<Byte>, off: nat, size: nat)
    requires TableTerminated(buf, off, size)
    ensures var entries := StringTableFrom(buf, off, size, 0);
      forall i, j | 0 <= i < j < |entries| :: entries[i].offset < entries[j].offset
  {
    WalkShape(buf, off, size, 0);
    OffsetsIncrease(StringTableFrom(buf, off, size, 0));
  }

  /** The strings, each followed by its NUL, back to back. */
  function Join(entries: seq<StringEntry>): (bytes: seq<Byte>)
    ensures |bytes| >= |entries|
  {
    if entries == [] then [] else entries[0].text + [0] + Join(entries[1..])
  }

  /**
   * The walk loses nothing: joining the reported strings with their NULs
   * gives back the bytes of the region from `cursor` to where the walk stopped.
   */
  lemma {:induction false} WalkJoinsBack(buf: seq<Byte>, off: nat, size: nat, cursor: nat)
    requires TableTerminated(buf, off, size) && cursor < size
    ensures var entries := StringTableFrom(buf, off, size, cursor);
      && cursor < EndOf(entries, cursor)
      && off + EndOf(entries, cursor) <= |buf|
      && Join(entries) == buf[off + cursor..off + EndOf(entries, cursor)]
    decreases size - cursor
  {
    var entries := StringTableFrom(buf, off, size, cursor);
    assert HasNulFrom(buf, off + cursor) by {
      var q :| off + size - 1 <= q < |buf| && buf[q] == 0;
    }
    var s := CStringAt(buf, off + cursor);
    var next := cursor + |s| + 1;
    var rest := StringTableFrom(buf, off, size, next);
    assert entries == [StringEntry(cursor, s)] + rest;
    assert entries[1..] == rest;
    CStringSlice(buf, off + cursor, s);
    assert Join(entries) == s + [0] + Join(rest);
    if next < size {
      WalkJoinsBack(buf, off, size, next);
      assert EndOf(entries, cursor) == EndOf(rest, next);
      JoinSlices(buf, off + cursor, off + next, off + EndOf(rest, next));
    } else {
      assert rest == [] && EndOf(entries, cursor) == next;
    }
  }

  /** The table "abc\0de\0\0": the walk reports (0, "abc"), (4, "de") and (7, ""). */
  lemma ThreeStrings()
    ensures var buf: seq<Byte> := [97, 98, 99, 0, 100, 101, 0, 0];
      && buf[7] == 0
      && StringTableFrom(buf, 0, 8, 0)
         == [StringEntry(0, [97, 98, 99]), StringEntry(4, [100, 101]), StringEntry(7, [])]
  {
    var buf: seq<Byte> := [97, 98, 99, 0, 100, 101, 0, 0];
    CStringAtIs(buf, 0, [97, 98, 99]);
    CStringAtIs(buf, 4, [100, 101]);
    CStringAtIs(buf, 7, []);
  }
}
