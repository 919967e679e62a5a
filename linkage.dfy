/** The linkage-table prelinker (`os_link_runtime`).

    The image carries a flat word array `lisp_linkage_values` of the form
    `[N, e1, e2, ...]`: the count `N`, then `N` logical entries, each either a
    bare target word (a function reference) or the word `(lispobj)-1`
    followed by a target word (a data reference). The prelinker walks it with
    a cursor and writes slot 0, 1, 2, ... of the linkage table. */
module Linkage {
  import opened Machine

  /** What `arch_write_linkage_table_entry` records for one slot. */
  datatype Entry = Entry(target: Word, datap: bool)

  /** Why a word array is not a descriptor array the prelinker can walk: the
      walk would read past its end, or the count read into a C `int` is
      negative (the `count--` loop would then run through signed overflow). */
  datatype DecodeError = Overrun | NegativeCount

  /** The logical entries of a descriptor array and the cursor after the last. */
  datatype Decoded = Decoded(entries: seq<Entry>, cursor: nat)

  datatype Result = Ok(value: Decoded) | Err(error: DecodeError)

  /** Number of data references among `es`. */
  function DataCount(es: seq<Entry>): nat
  {
    if es == [] then 0 else (if es[0].datap then 1 else 0) + DataCount(es[1..])
  }

  function Cons(e: Entry, r: Result): Result
  {
    match r
    case Ok(d) => Ok(Decoded([e] + d.entries, d.cursor))
    case Err(_) => r
  }

  /** Decodes `count` logical entries of `ws` starting at word `pos`. */
  function DecodeEntries(ws: seq<Word>, pos: nat, count: nat): (r: Result)
    requires pos <= |ws|
    ensures r.Ok? ==> |r.value.entries| == count && pos <= r.value.cursor <= |ws|
    ensures r.Err? ==> r.error == Overrun
    decreases count
  {
    if count == 0 then Ok(Decoded([], pos))
    else if pos == |ws| then Err(Overrun)
    else if ws[pos] == ALL_ONES then
      if pos + 1 == |ws| then Err(Overrun)
      else Cons(Entry(ws[pos + 1], true), DecodeEntries(ws, pos + 2, count - 1))
    else Cons(Entry(ws[pos], false), DecodeEntries(ws, pos + 1, count - 1))
  }

  /** The whole descriptor array: the count is the first word as a C `int`. */
  function Decode(ws: seq<Word>): (r: Result)
    ensures r.Ok? ==> |ws| > 0 && |r.value.entries| == ToCInt(ws[0]) && r.value.cursor <= |ws|
    ensures r == Err(NegativeCount) <==> |ws| > 0 && ToCInt(ws[0]) < 0
  {
    if |ws| == 0 then Err(Overrun)
    else if ToCInt(ws[0]) < 0 then Err(NegativeCount)
    else DecodeEntries(ws, 1, ToCInt(ws[0]))
  }

  /** The words that stand for one entry in a descriptor array. */
  function EntryWords(e: Entry): seq<Word>
  {
    if e.datap then [ALL_ONES, e.target] else [e.target]
  }

  function EncodeEntries(es: seq<Entry>): seq<Word>
  {
    if es == [] then [] else EntryWords(es[0]) + EncodeEntries(es[1..])
  }

  /** Entries a descriptor array can describe: the count fits a C `int`, and
      no function reference has the target `(lispobj)-1`, which the format
      reserves as the data marker. */
  predicate Encodable(es: seq<Entry>)
  {
    |es| <= INT_MAX && forall i :: 0 <= i < |es| && !es[i].datap ==> es[i].target != ALL_ONES
  }

  /** The descriptor array that describes `es`, as the image builder lays it out. */
  function Encode(es: seq<Entry>): seq<Word>
    requires |es| <= INT_MAX
  {
    [|es|] + EncodeEntries(es)
  }

  /** A function reference takes one word, a data reference two. */
  lemma {:induction false} EncodedLength(es: seq<Entry>)
    ensures |EncodeEntries(es)| == |es| + DataCount(es)
  {
    if es != [] {
      EncodedLength(es[1..]);
    }
  }

  /** Decoding the encoding of `es`, wherever it sits in a larger array, gives
      back `es` with the cursor just past it. */
  lemma {:induction false} DecodeEntriesOfEncoding(pre: seq<Word>, es: seq<Entry>, post: seq<Word>)
    requires forall i :: 0 <= i < |es| && !es[i].datap ==> es[i].target != ALL_ONES
    ensures DecodeEntries(pre + EncodeEntries(es) + post, |pre|, |es|)
            == Ok(Decoded(es, |pre| + |EncodeEntries(es)|))
    decreases |es|
  {
    var ws := pre + EncodeEntries(es) + post;
    if es != [] {
      var pre' := pre + EntryWords(es[0]);
      assert ws == pre' + EncodeEntries(es[1..]) + post;
      forall i | 0 <= i < |es[1..]| && !es[1..][i].datap
        ensures es[1..][i].target != ALL_ONES
      {
        assert es[1..][i] == es[i + 1];
      }
      DecodeEntriesOfEncoding(pre', es[1..], post);
      assert ws[|pre|] == EntryWords(es[0])[0];
      if es[0].datap {
        assert ws[|pre| + 1] == es[0].target;
      }
      assert [es[0]] + es[1..] == es;
    }
  }

  /** Round trip: the prelinker reads back exactly the entries the image
      builder wrote, and consumes the whole array. */
  lemma DecodeEncode(es: seq<Entry>)
    requires Encodable(es)
    ensures Decode(Encode(es)) == Ok(Decoded(es, |Encode(es)|))
  {
    var ws := Encode(es);
    assert ws == [|es| as Word] + EncodeEntries(es) + [];
    DecodeEntriesOfEncoding([|es| as Word], es, []);
  }

  /** The words the decoder consumed are exactly the encoding of what it
      produced, and every function target it produced differs from the marker. */
  lemma {:induction false} DecodedIsEncoding(ws: seq<Word>, pos: nat, count: nat)
    requires pos <= |ws| && DecodeEntries(ws, pos, count).Ok?
    ensures var d := DecodeEntries(ws, pos, count).value;
            EncodeEntries(d.entries) == ws[pos..d.cursor] &&
            forall i :: 0 <= i < |d.entries| && !d.entries[i].datap ==> d.entries[i].target != ALL_ONES
    decreases count
  {
    if count > 0 {
      var d := DecodeEntries(ws, pos, count).value;
      var next := if ws[pos] == ALL_ONES then pos + 2 else pos + 1;
      DecodedIsEncoding(ws, next, count - 1);
      var rest := DecodeEntries(ws, next, count - 1).value;
      assert d.entries == [d.entries[0]] + rest.entries;
      assert d.entries[1..] == rest.entries;
      assert ws[pos..d.cursor] == ws[pos..next] + ws[next..d.cursor];
      forall i | 0 <= i < |d.entries| && !d.entries[i].datap
        ensures d.entries[i].target != ALL_ONES
      {
        if i > 0 {
          assert d.entries[i] == rest.entries[i - 1];
        }
      }
    }
  }

  /** In every array the prelinker accepts, the words after the count are
      the encoding of the entries, and the count word read as a C `int` is
      their number. When the count word is below 2^31 the array is exactly
      `Encode` of the entries followed by words the walk never reads; a
      count word with high bits set is read through its low 32 bits only. */
  lemma DecodeIsInverse(ws: seq<Word>)
    requires Decode(ws).Ok?
    ensures var d := Decode(ws).value;
            Encodable(d.entries) && ToCInt(ws[0]) == |d.entries| &&
            ws[1..d.cursor] == EncodeEntries(d.entries) &&
            (ws[0] <= INT_MAX ==> ws[..d.cursor] == Encode(d.entries))
  {
    var d := Decode(ws).value;
    DecodedIsEncoding(ws, 1, ToCInt(ws[0]));
    if ws[0] <= INT_MAX {
      assert ws[..d.cursor] == [ws[0]] + ws[1..d.cursor];
    }
  }

  /** Cursor bound: the walk consumes the count word, one word per entry and
      one more per data reference, and no word past the end. */
  lemma DecodeCursor(ws: seq<Word>)
    requires Decode(ws).Ok?
    ensures var d := Decode(ws).value;
            d.cursor == 1 + |d.entries| + DataCount(d.entries) && d.cursor <= |ws|
  {
    var d := Decode(ws).value;
    DecodeIsInverse(ws);
    EncodedLength(d.entries);
  }

  /** A two-entry array: a function reference to 0xA000, then a data
      reference to 0xB000. */
  lemma PrelinkExample()
    ensures Decode([2, 0xA000, ALL_ONES, 0xB000])
            == Ok(Decoded([Entry(0xA000, false), Entry(0xB000, true)], 4))
  {
  }

  /** The table after `es` has been written at slots 0 .. |es|-1 of `t`. */
  function Installed(t: map<int, Entry>, es: seq<Entry>): map<int, Entry>
  {
    t + map i | 0 <= i < |es| :: es[i]
  }

  /** The slot indices 0, 1, ..., n-1 in order. */
  function Ordinals(n: nat): seq<int>
  {
    seq(n, i => i)
  }

  /** Entry i of `es` sits at slot i; every other slot keeps its old contents. */
  lemma InstalledAt(t: map<int, Entry>, es: seq<Entry>, k: int)
    ensures k in Installed(t, es) <==> k in t || 0 <= k < |es|
    ensures 0 <= k < |es| ==> Installed(t, es)[k] == es[k]
    ensures k in t && !(0 <= k < |es|) ==> Installed(t, es)[k] == t[k]
  {
  }

  lemma InstalledSnoc(t: map<int, Entry>, es: seq<Entry>, e: Entry)
    ensures Installed(t, es + [e]) == Installed(t, es)[|es| := e]
  {
    var a, b := Installed(t, es + [e]), Installed(t, es)[|es| := e];
    forall k | k in a
      ensures k in b && a[k] == b[k]
    {
      if 0 <= k < |es| {
        assert (es + [e])[k] == es[k];
      }
    }
  }

  /** The linkage table with the prelinker's global count. */
  class LinkageTable {
    /** Slots written so far, by index. */
    var slots: map<int, Entry>
    /** `lisp_linkage_table_n_prelinked`. */
    var nPrelinked: int
    /** The indices passed to the entry writer, in the order of the calls. */
    ghost var writes: seq<int>

    constructor ()
      ensures slots == map[] && nPrelinked == 0 && writes == []
    {
      slots := map[];
      nPrelinked := 0;
      writes := [];
    }

    /** `arch_write_linkage_table_entry`: set one slot. */
    method WriteEntry(index: int, target: Word, datap: bool)
      modifies this
      ensures slots == old(slots)[index := Entry(target, datap)]
      ensures nPrelinked == old(nPrelinked) && writes == old(writes) + [index]
    {
      slots := slots[index := Entry(target, datap)];
      writes := writes + [index];
    }

    /** `os_link_runtime`: `values` is `lisp_linkage_values`, `None` when the
        weak symbol is absent from the image. */
    method LinkRuntime(values: Option<seq<Word>>)
      requires values.Some? ==> Decode(values.value).Ok?
      modifies this
      ensures values.None? ==>
                slots == old(slots) && nPrelinked == old(nPrelinked) && writes == old(writes)
      ensures values.Some? ==>
                var es := Decode(values.value).value.entries;
                nPrelinked == ToCInt(values.value[0]) == |es| &&
                slots == Installed(old(slots), es) &&
                writes == old(writes) + Ordinals(|es|)
    {
      if values.None? {
        return;
      }
      var ws := values.value;
      ghost var d := Decode(ws).value;
      var ptr := 0;
      var count := ToCInt(ws[ptr]);
      nPrelinked := count;
      ptr := ptr + 1;
      var entryIndex := 0;
      while count != 0
        invariant 0 <= count && entryIndex + count == |d.entries| == nPrelinked
        invariant ptr <= |ws|
        invariant DecodeEntries(ws, ptr, count) == Ok(Decoded(d.entries[entryIndex..], d.cursor))
        invariant slots == Installed(old(slots), d.entries[..entryIndex])
        invariant writes == old(writes) + Ordinals(entryIndex)
        decreases count
      {
        var datap := ws[ptr] == ALL_ONES;
        if datap {
          ptr := ptr + 1;
        }
        var e := Entry(ws[ptr], datap);
        ghost var rest := DecodeEntries(ws, ptr + 1, count - 1).value;
        assert [e] + rest.entries == d.entries[entryIndex..];
        assert d.entries[entryIndex] == e;
        assert rest.entries == d.entries[entryIndex + 1..];
        assert d.entries[..entryIndex + 1] == d.entries[..entryIndex] + [e];
        assert Ordinals(entryIndex + 1) == Ordinals(entryIndex) + [entryIndex];
        InstalledSnoc(old(slots), d.entries[..entryIndex], e);
        WriteEntry(entryIndex, ws[ptr], datap);
        ptr := ptr + 1;
        count := count - 1;
        entryIndex := entryIndex + 1;
      }
      assert d.entries[..entryIndex] == d.entries;
    }
  }

  /** A two-entry array, through the table itself. */
  method PrelinkScenario()
  {
    var table := new LinkageTable();
    var ws: seq<Word> := [2, 0xA000, ALL_ONES, 0xB000];
    PrelinkExample();
    table.LinkRuntime(Some(ws));
    assert table.nPrelinked == 2;
    InstalledAt(map[], [Entry(0xA000, false), Entry(0xB000, true)], 0);
    InstalledAt(map[], [Entry(0xA000, false), Entry(0xB000, true)], 1);
    assert table.slots[0] == Entry(0xA000, false);
    assert table.slots[1] == Entry(0xB000, true);
    assert table.writes == [0, 1];
  }
}
