/**
 Rendering a resolved value for the shell (`is_atomic`, `write_atom`,
 `FmtBash::fmt`). Scalars print bare; arrays print their scalar elements
 separated by one space; tables print `[key]=value` for their scalar
 entries, separated by one space; nested arrays and tables are skipped. A
 root integer alone gets a trailing line break. Strings and keys are only
 unescaped, never shell-quoted.
 */
module FmtBash {
  import opened Wrappers
  import opened Text
  import opened Values
  import opened Decimal

  /** The foreign functions rendering relies on: `snailquote::unescape`,
      which may fail, and the display text of floats and date-times. */
  datatype Externals = Externals(
    unescape: string -> Option<string>,
    floatText: FloatRepr -> string,
    dtText: DtRepr -> string)

  /** A string scalar can only be written when unescaping it succeeds: the
      source unwraps the unescaped result and would panic otherwise. */
  predicate AtomWritable(x: Externals, v: Value)
  {
    v.Str? ==> x.unescape(v.s).Some?
  }

  /** Every scalar element of an array can be written. */
  predicate ElemsWritable(x: Externals, es: seq<Value>)
  {
    forall v :: v in es && IsAtomic(v) ==> AtomWritable(x, v)
  }

  /** For every scalar entry of a table, key and value can be written. Keys
      of skipped (composite) entries are never unescaped. */
  predicate EntriesWritable(x: Externals, es: seq<(string, Value)>)
  {
    forall e :: e in es && IsAtomic(e.1) ==> x.unescape(e.0).Some? && AtomWritable(x, e.1)
  }

  /** The values whose rendering does not reach a failing unescape. */
  predicate Renderable(x: Externals, v: Value)
  {
    match v
    case Arr(es) => ElemsWritable(x, es)
    case Tbl(es) => EntriesWritable(x, es)
    case _ => AtomWritable(x, v)
  }

  /** The text of one scalar: the unescaped string with no quoting added,
      the canonical decimal text of an integer (which reads back as it), `true`/`false` for a boolean, the
      display text for a float or date-time. Never reached with an array or
      a table. */
  function WriteAtom(x: Externals, v: Value): (r: string)
    requires IsAtomic(v) && AtomWritable(x, v)
    ensures v.Str? ==> x.unescape(v.s) == Some(r)
    ensures v.Int? ==> r == IntText(v.i) && ParseInt(r) == Some(v.i) && '\n' !in r
    ensures v.Bool? ==> (r == "true" <==> v.b) && (r == "false" <==> !v.b)
    ensures v.Flt? ==> r == x.floatText(v.f)
    ensures v.Dt? ==> r == x.dtText(v.dt)
  {
    match v
    case Str(s) => x.unescape(s).value
    case Int(i) =>
      IntTextRoundTrip(i);
      IntText(i)
    case Bool(b) => if b then "true" else "false"
    case Flt(f) => x.floatText(f)
    case Dt(dt) => x.dtText(dt)
  }

  /** The scalar elements of an array, in order. */
  function Atomics(es: seq<Value>): (r: seq<Value>)
    ensures forall v :: v in r <==> v in es && IsAtomic(v)
  {
    if |es| == 0 then []
    else (if IsAtomic(es[0]) then [es[0]] else []) + Atomics(es[1..])
  }

  /** The scalar entries of a table, in order. */
  function AtomicEntries(es: seq<(string, Value)>): (r: seq<(string, Value)>)
    ensures forall e :: e in r <==> e in es && IsAtomic(e.1)
  {
    if |es| == 0 then []
    else (if IsAtomic(es[0].1) then [es[0]] else []) + AtomicEntries(es[1..])
  }

  /** Filtering a concatenation filters each part, so `Atomics` keeps the
      scalar elements in their original order, duplicates included. */
  lemma {:induction false} AtomicsAppend(a: seq<Value>, b: seq<Value>)
    ensures Atomics(a + b) == Atomics(a) + Atomics(b)
    decreases |a|
  {
    if |a| == 0 {
      assert a + b == b;
    } else {
      assert (a + b)[1..] == a[1..] + b;
      AtomicsAppend(a[1..], b);
    }
  }

  /** The same for the scalar entries of a table. */
  lemma {:induction false} AtomicEntriesAppend(a: seq<(string, Value)>, b: seq<(string, Value)>)
    ensures AtomicEntries(a + b) == AtomicEntries(a) + AtomicEntries(b)
    decreases |a|
  {
    if |a| == 0 {
      assert a + b == b;
    } else {
      assert (a + b)[1..] == a[1..] + b;
      AtomicEntriesAppend(a[1..], b);
    }
  }

  /** The texts the array loop writes, one per scalar element. */
  function AtomTexts(x: Externals, es: seq<Value>): seq<string>
    requires ElemsWritable(x, es)
  {
    if |es| == 0 then []
    else (if IsAtomic(es[0]) then [WriteAtom(x, es[0])] else []) + AtomTexts(x, es[1..])
  }

  /** `[key]=value` for one scalar table entry, the key unescaped. */
  function EntryText(x: Externals, e: (string, Value)): string
    requires IsAtomic(e.1) && x.unescape(e.0).Some? && AtomWritable(x, e.1)
  {
    "[" + x.unescape(e.0).value + "]=" + WriteAtom(x, e.1)
  }

  /** The texts the table loop writes, one per scalar entry. */
  function EntryTexts(x: Externals, es: seq<(string, Value)>): seq<string>
    requires EntriesWritable(x, es)
  {
    if |es| == 0 then []
    else (if IsAtomic(es[0].1) then [EntryText(x, es[0])] else []) + EntryTexts(x, es[1..])
  }

  /** The text `FmtBash` displays for a resolved value: a root integer is
      its `WriteAtom` text plus a line break, any other scalar is exactly
      its `WriteAtom` text, and an array or table is the single-space join
      of the texts of its scalar elements or entries. */
  function Render(x: Externals, v: Value): (r: string)
    requires Renderable(x, v)
    ensures v.Int? ==> r == WriteAtom(x, v) + "\n"
    ensures IsAtomic(v) && !v.Int? ==> r == WriteAtom(x, v)
  {
    match v
    case Arr(es) => Join(" ", AtomTexts(x, es))
    case Tbl(es) => Join(" ", EntryTexts(x, es))
    case Int(i) => IntText(i) + "\n"
    case _ => WriteAtom(x, v)
  }

  lemma AtomTextsSingle(x: Externals, v: Value)
    requires ElemsWritable(x, [v])
    ensures AtomTexts(x, [v]) == if IsAtomic(v) then [WriteAtom(x, v)] else []
  {
    assert [v][1..] == [];
  }

  lemma EntryTextsSingle(x: Externals, e: (string, Value))
    requires EntriesWritable(x, [e])
    ensures EntryTexts(x, [e]) == if IsAtomic(e.1) then [EntryText(x, e)] else []
  {
    assert [e][1..] == [];
  }

  lemma {:induction false} AtomTextsAppend(x: Externals, a: seq<Value>, b: seq<Value>)
    requires ElemsWritable(x, a + b)
    ensures ElemsWritable(x, a) && ElemsWritable(x, b)
    ensures AtomTexts(x, a + b) == AtomTexts(x, a) + AtomTexts(x, b)
    decreases |a|
  {
    if |a| == 0 {
      assert a + b == b;
    } else {
      assert (a + b)[1..] == a[1..] + b;
      AtomTextsAppend(x, a[1..], b);
    }
  }

  lemma {:induction false} EntryTextsAppend(x: Externals, a: seq<(string, Value)>, b: seq<(string, Value)>)
    requires EntriesWritable(x, a + b)
    ensures EntriesWritable(x, a) && EntriesWritable(x, b)
    ensures EntryTexts(x, a + b) == EntryTexts(x, a) + EntryTexts(x, b)
    decreases |a|
  {
    if |a| == 0 {
      assert a + b == b;
    } else {
      assert (a + b)[1..] == a[1..] + b;
      EntryTextsAppend(x, a[1..], b);
    }
  }

  /** The array loop writes exactly the texts of the scalar elements, in
      their order: the i-th text is the i-th scalar element written. */
  lemma {:induction false} AtomTextsOfAtomics(x: Externals, es: seq<Value>)
    requires ElemsWritable(x, es)
    ensures |AtomTexts(x, es)| == |Atomics(es)|
    ensures forall j :: 0 <= j < |Atomics(es)| ==>
              AtomWritable(x, Atomics(es)[j]) && AtomTexts(x, es)[j] == WriteAtom(x, Atomics(es)[j])
  {
    if |es| > 0 {
      AtomTextsOfAtomics(x, es[1..]);
    }
  }

  /** The table loop writes exactly `[key]=value` for the scalar entries, in
      their order. */
  lemma {:induction false} EntryTextsOfAtomicEntries(x: Externals, es: seq<(string, Value)>)
    requires EntriesWritable(x, es)
    ensures |EntryTexts(x, es)| == |AtomicEntries(es)|
    ensures forall j :: 0 <= j < |AtomicEntries(es)| ==>
              var e := AtomicEntries(es)[j];
              x.unescape(e.0).Some? && AtomWritable(x, e.1)
              && EntryTexts(x, es)[j] == "[" + x.unescape(e.0).value + "]=" + WriteAtom(x, e.1)
  {
    if |es| > 0 {
      EntryTextsOfAtomicEntries(x, es[1..]);
    }
  }

  /** When no text contains a space, splitting the array's output on spaces
      gives back the element texts: one space between neighbours, none at
      either end. */
  lemma RenderArrayTokens(x: Externals, es: seq<Value>)
    requires ElemsWritable(x, es)
    requires |Atomics(es)| > 0
    requires forall j :: 0 <= j < |AtomTexts(x, es)| ==> ' ' !in AtomTexts(x, es)[j]
    ensures Split(Render(x, Arr(es)), ' ') == AtomTexts(x, es)
  {
    AtomTextsOfAtomics(x, es);
    assert " " == [' '];
    SplitJoin(AtomTexts(x, es), ' ');
  }

  /** The same for a table's `[key]=value` entries. */
  lemma RenderTableTokens(x: Externals, es: seq<(string, Value)>)
    requires EntriesWritable(x, es)
    requires |AtomicEntries(es)| > 0
    requires forall j :: 0 <= j < |EntryTexts(x, es)| ==> ' ' !in EntryTexts(x, es)[j]
    ensures Split(Render(x, Tbl(es)), ' ') == EntryTexts(x, es)
  {
    EntryTextsOfAtomicEntries(x, es);
    assert " " == [' '];
    SplitJoin(EntryTexts(x, es), ' ');
  }

  /** An array without scalar elements (empty, or only arrays and tables)
      renders as the empty string. */
  lemma {:induction false} RenderArrayNoAtoms(x: Externals, es: seq<Value>)
    requires forall v :: v in es ==> !IsAtomic(v)
    ensures Renderable(x, Arr(es)) && Render(x, Arr(es)) == ""
  {
    if |es| > 0 {
      RenderArrayNoAtoms(x, es[1..]);
    }
  }

  /** A table without scalar entries renders as the empty string. */
  lemma {:induction false} RenderTableNoAtoms(x: Externals, es: seq<(string, Value)>)
    requires forall e :: e in es ==> !IsAtomic(e.1)
    ensures Renderable(x, Tbl(es)) && Render(x, Tbl(es)) == ""
  {
    if |es| > 0 {
      RenderTableNoAtoms(x, es[1..]);
    }
  }

  /** A nested array or table inside an array is skipped silently: removing
      it does not change the output. */
  lemma RenderArraySkipsComposite(x: Externals, a: seq<Value>, c: Value, b: seq<Value>)
    requires !IsAtomic(c)
    requires ElemsWritable(x, a + b)
    ensures Renderable(x, Arr(a + [c] + b))
    ensures Render(x, Arr(a + [c] + b)) == Render(x, Arr(a + b))
  {
    AtomTextsAppend(x, a, b);
    assert ElemsWritable(x, a + [c] + b);
    AtomTextsAppend(x, a + [c], b);
    AtomTextsAppend(x, a, [c]);
    AtomTextsSingle(x, c);
    assert AtomTexts(x, a + [c]) == AtomTexts(x, a);
  }

  /** An entry holding an array or table is skipped silently, key and all. */
  lemma RenderTableSkipsComposite(x: Externals, a: seq<(string, Value)>, c: (string, Value), b: seq<(string, Value)>)
    requires !IsAtomic(c.1)
    requires EntriesWritable(x, a + b)
    ensures Renderable(x, Tbl(a + [c] + b))
    ensures Render(x, Tbl(a + [c] + b)) == Render(x, Tbl(a + b))
  {
    EntryTextsAppend(x, a, b);
    assert EntriesWritable(x, a + [c] + b);
    EntryTextsAppend(x, a + [c], b);
    EntryTextsAppend(x, a, [c]);
    EntryTextsSingle(x, c);
    assert EntryTexts(x, a + [c]) == EntryTexts(x, a);
  }

  /** Only a root integer gets a line break: it renders as its decimal text
      followed by `\n`, whereas inside an array or a table, and for every
      other root scalar, the text is the same as the element's alone. */
  lemma IntegerNewlineAsymmetry(x: Externals, v: Value, key: string)
    requires IsAtomic(v) && AtomWritable(x, v)
    ensures Renderable(x, v) && Renderable(x, Arr([v]))
    ensures v.Int? ==> Render(x, v) == Render(x, Arr([v])) + "\n"
    ensures v.Int? ==> '\n' !in Render(x, Arr([v]))
    ensures !v.Int? ==> Render(x, v) == Render(x, Arr([v]))
    ensures x.unescape(key).Some? ==>
              Renderable(x, Tbl([(key, v)]))
              && Render(x, Tbl([(key, v)])) == "[" + x.unescape(key).value + "]=" + Render(x, Arr([v]))
  {
    AtomTextsSingle(x, v);
    if x.unescape(key).Some? {
      EntryTextsSingle(x, (key, v));
    }
  }

  /** The array arm of `FmtBash::fmt`: skip composite elements, and use the
      `had_one` flag to write a space before every scalar but the first. */
  method FmtArray(x: Externals, arr: seq<Value>) returns (out: string)
    requires ElemsWritable(x, arr)
    ensures out == Render(x, Arr(arr))
  {
    var hadOne := false;
    out := "";
    for k := 0 to |arr|
      invariant ElemsWritable(x, arr[..k])
      invariant hadOne <==> |AtomTexts(x, arr[..k])| > 0
      invariant out == Join(" ", AtomTexts(x, arr[..k]))
    {
      assert arr[..k + 1] == arr[..k] + [arr[k]];
      AtomTextsAppend(x, arr[..k], [arr[k]]);
      AtomTextsSingle(x, arr[k]);
      ghost var done := AtomTexts(x, arr[..k]);
      if !IsAtomic(arr[k]) {
        assert AtomTexts(x, arr[..k + 1]) == done + [] == done;
        continue;
      }
      var atom := WriteAtom(x, arr[k]);
      if hadOne {
        JoinAppend(" ", done, [atom]);
        out := out + " ";
      } else {
        assert done + [atom] == [atom];
        hadOne := true;
      }
      out := out + atom;
    }
    assert arr[..|arr|] == arr;
  }

  /** The table arm of `FmtBash::fmt`: skip entries with composite values,
      write `[key]=` and then the scalar, a space before all but the first. */
  method FmtTable(x: Externals, tbl: seq<(string, Value)>) returns (out: string)
    requires EntriesWritable(x, tbl)
    ensures out == Render(x, Tbl(tbl))
  {
    var hadOne := false;
    out := "";
    for k := 0 to |tbl|
      invariant EntriesWritable(x, tbl[..k])
      invariant hadOne <==> |EntryTexts(x, tbl[..k])| > 0
      invariant out == Join(" ", EntryTexts(x, tbl[..k]))
    {
      assert tbl[..k + 1] == tbl[..k] + [tbl[k]];
      EntryTextsAppend(x, tbl[..k], [tbl[k]]);
      EntryTextsSingle(x, tbl[k]);
      var key := tbl[k].0;
      var value := tbl[k].1;
      ghost var done := EntryTexts(x, tbl[..k]);
      if !IsAtomic(value) {
        assert EntryTexts(x, tbl[..k + 1]) == done + [] == done;
        continue;
      }
      ghost var text := EntryText(x, tbl[k]);
      if hadOne {
        JoinAppend(" ", done, [text]);
        out := out + " ";
      } else {
        assert done + [text] == [text];
        hadOne := true;
      }
      var head := "[" + x.unescape(key).value + "]=";
      var atom := WriteAtom(x, value);
      assert head + atom == text;
      out := out + head;
      out := out + atom;
    }
    assert tbl[..|tbl|] == tbl;
  }

  /** `FmtBash::fmt`: dispatch on the shape of the resolved value. */
  method Fmt(x: Externals, v: Value) returns (out: string)
    requires Renderable(x, v)
    ensures out == Render(x, v)
  {
    match v {
      case Arr(arr) =>
        out := FmtArray(x, arr);
      case Tbl(tbl) =>
        out := FmtTable(x, tbl);
      case Int(i) =>
        out := IntText(i) + "\n";
      case _ =>
        out := WriteAtom(x, v);
    }
  }
}
