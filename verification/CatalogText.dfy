/** The catalog as text (stream operators of src/system/sm_meta.h). */
module CatalogText {
  import opened Common
  import opened Bytes
  import opened Meta
  import opened TextStream

  datatype DbMeta = DbMeta(name: string, tabs: map<string, TabMeta>)

  // ----- Printing -----

  function PrintCol(c: ColMeta): string {
    c.tabName + " " + c.name + " " + IntText(TypeNo(c.colType)) + " " + IntText(c.len) + " " + IntText(c.offset) + " " +
    (if c.index then "1" else "0")
  }

  function PrintIndexCols(cols: seq<ColMeta>): string {
    if cols == [] then "" else PrintIndexCols(cols[..|cols| - 1]) + "\n" + PrintCol(cols[|cols| - 1])
  }

  function PrintIndex(x: IndexMeta): string {
    x.tabName + " " + IntText(x.colTotLen) + " " + IntText(x.colNum) + PrintIndexCols(x.cols)
  }

  function PrintCols(cols: seq<ColMeta>): string {
    if cols == [] then "" else PrintCols(cols[..|cols| - 1]) + PrintCol(cols[|cols| - 1]) + "\n"
  }

  function PrintIndexes(xs: seq<IndexMeta>): string {
    if xs == [] then "" else PrintIndexes(xs[..|xs| - 1]) + PrintIndex(xs[|xs| - 1]) + "\n"
  }

  function PrintTab(t: TabMeta): string {
    t.name + "\n" + SizeText(|t.cols|) + "\n" + PrintCols(t.cols) + SizeText(|t.indexes|) + "\n" + PrintIndexes(t.indexes)
  }

  function PrintTabs(tabs: map<string, TabMeta>, order: seq<string>): string
    requires forall k :: k in order ==> k in tabs
  {
    if order == [] then "" else
    PrintTabs(tabs, order[..|order| - 1]) + PrintTab(tabs[order[|order| - 1]]) + "\n"
  }

  /** `order` is the order in which the map lists its tables. */
  function PrintDb(db: DbMeta, order: seq<string>): string
    requires forall k :: k in order ==> k in db.tabs
  {
    db.name + "\n" + SizeText(|order|) + "\n" + PrintTabs(db.tabs, order)
  }

  // ----- Parsing -----

  function ParseCol(s: string): Option<(ColMeta, string)> {
    var tab := ReadWord(s);
    if tab.None? then None else
    var name := ReadWord(tab.value.1);
    if name.None? then None else
    var ty := ReadInt(name.value.1);
    if ty.None? || !(0 <= ty.value.0 <= 2) then None else
    var len := ReadInt(ty.value.1);
    if len.None? then None else
    var off := ReadInt(len.value.1);
    if off.None? then None else
    var ix := ReadInt(off.value.1);
    if ix.None? || !(0 <= ix.value.0 <= 1) then None else
    var colType := if ty.value.0 == 0 then TypeInt else if ty.value.0 == 1 then TypeFloat else TypeString;
    Some((ColMeta(tab.value.0, name.value.0, colType, len.value.0, off.value.0, ix.value.0 == 1), ix.value.1))
  }

  function ParseCols(s: string, n: nat): Option<(seq<ColMeta>, string)>
    decreases n
  {
    if n == 0 then Some(([], s)) else
    var c := ParseCol(s);
    if c.None? then None else
    var rest := ParseCols(c.value.1, n - 1);
    if rest.None? then None else Some(([c.value.0] + rest.value.0, rest.value.1))
  }

  function ParseIndex(s: string): Option<(IndexMeta, string)> {
    var tab := ReadWord(s);
    if tab.None? then None else
    var tot := ReadInt(tab.value.1);
    if tot.None? then None else
    var num := ReadInt(tot.value.1);
    if num.None? then None else
    var cols := ParseCols(num.value.1, if num.value.0 < 0 then 0 else num.value.0);
    if cols.None? then None else
    Some((IndexMeta(tab.value.0, tot.value.0, num.value.0, cols.value.0), cols.value.1))
  }

  function ParseIndexes(s: string, n: nat): Option<(seq<IndexMeta>, string)>
    decreases n
  {
    if n == 0 then Some(([], s)) else
    var x := ParseIndex(s);
    if x.None? then None else
    var rest := ParseIndexes(x.value.1, n - 1);
    if rest.None? then None else Some(([x.value.0] + rest.value.0, rest.value.1))
  }

  function ParseTab(s: string): Option<(TabMeta, string)> {
    var name := ReadWord(s);
    if name.None? then None else
    var n := ReadSize(name.value.1);
    if n.None? then None else
    var cols := ParseCols(n.value.1, n.value.0);
    if cols.None? then None else
    var m := ReadSize(cols.value.1);
    if m.None? then None else
    var xs := ParseIndexes(m.value.1, m.value.0);
    if xs.None? then None else Some((TabMeta(name.value.0, cols.value.0, xs.value.0), xs.value.1))
  }

  /** Each table read is entered under its own name. */
  function ParseTabs(s: string, n: nat, tabs: map<string, TabMeta>): Option<(map<string, TabMeta>, string)>
    decreases n
  {
    if n == 0 then Some((tabs, s)) else
    var t := ParseTab(s);
    if t.None? then None else ParseTabs(t.value.1, n - 1, tabs[t.value.0.name := t.value.0])
  }

  function ParseDb(s: string): Option<(DbMeta, string)> {
    var name := ReadWord(s);
    if name.None? then None else
    var n := ReadSize(name.value.1);
    if n.None? then None else
    var tabs := ParseTabs(n.value.1, n.value.0, map[]);
    if tabs.None? then None else Some((DbMeta(name.value.0, tabs.value.0), tabs.value.1))
  }

  // ----- Printable catalogs -----

  predicate ColPrintable(c: ColMeta) {
    IsWord(c.tabName) && IsWord(c.name) && IsInt32(c.len) && IsInt32(c.offset)
  }

  predicate IndexPrintable(x: IndexMeta) {
    && IsWord(x.tabName) && IsInt32(x.colTotLen) && IsInt32(x.colNum) && x.colNum == |x.cols|
    && forall c :: c in x.cols ==> ColPrintable(c)
  }

  predicate TabPrintable(t: TabMeta) {
    && IsWord(t.name) && (forall c :: c in t.cols ==> ColPrintable(c))
    && forall x :: x in t.indexes ==> IndexPrintable(x)
  }

  /** Names are single words, index column counts are right, and every table is
      entered under its own name. */
  predicate DbPrintable(db: DbMeta) {
    IsWord(db.name) && forall k :: k in db.tabs ==> TabPrintable(db.tabs[k]) && db.tabs[k].name == k
  }

  // ----- The words of the printed text -----

  function ColWords(c: ColMeta): seq<string> {
    [c.tabName, c.name, IntText(TypeNo(c.colType)), IntText(c.len), IntText(c.offset), if c.index then "1" else "0"]
  }

  function ColsWords(cols: seq<ColMeta>): seq<string> {
    if cols == [] then [] else ColsWords(cols[..|cols| - 1]) + ColWords(cols[|cols| - 1])
  }

  function IndexWords(x: IndexMeta): seq<string> {
    [x.tabName, IntText(x.colTotLen), IntText(x.colNum)] + ColsWords(x.cols)
  }

  function IndexesWords(xs: seq<IndexMeta>): seq<string> {
    if xs == [] then [] else IndexesWords(xs[..|xs| - 1]) + IndexWords(xs[|xs| - 1])
  }

  function TabWords(t: TabMeta): seq<string> {
    [t.name, SizeText(|t.cols|)] + ColsWords(t.cols) + [SizeText(|t.indexes|)] + IndexesWords(t.indexes)
  }

  function TabsWords(tabs: map<string, TabMeta>, order: seq<string>): seq<string>
    requires forall k :: k in order ==> k in tabs
  {
    if order == [] then [] else TabsWords(tabs, order[..|order| - 1]) + TabWords(tabs[order[|order| - 1]])
  }

  lemma {:induction false} WordsSnoc(a: string, sep: char, w: string)
    requires IsWs(sep) && IsWord(w)
    ensures Words(a + [sep] + w) == Words(a) + [w]
  {
    WordsConcat(a, sep, w);
    OneWord(w);
  }

  lemma {:induction false} WordsSnocInt(a: string, sep: char, x: int)
    requires IsWs(sep)
    ensures Words(a + [sep] + IntText(x)) == Words(a) + [IntText(x)]
  {
    IntTextWord(x);
    WordsSnoc(a, sep, IntText(x));
  }

  /** Text that ends a line, then more text. */
  lemma {:induction false} WordsAfter(a: string, b: string)
    requires a == [] || IsWs(a[|a| - 1])
    ensures Words(a + b) == Words(a) + Words(b)
  {
    if a == [] {
      assert a + b == b;
    } else {
      var n := |a| - 1;
      assert a == a[..n] + [a[n]] && a + b == a[..n] + [a[n]] + b && a == a[..n] + [a[n]] + [];
      WordsConcat(a[..n], a[n], b);
      WordsConcat(a[..n], a[n], []);
    }
  }

  lemma {:induction false} WordsLine(a: string)
    ensures Words(a + "\n") == Words(a)
  {
    WordsConcat(a, '\n', []);
    assert a + ['\n'] + [] == a + "\n";
  }

  lemma {:induction false} ColText(c: ColMeta)
    requires ColPrintable(c)
    ensures Words(PrintCol(c)) == ColWords(c)
  {
    hide Words, IntText, TypeNo;
    OneWord(c.tabName);
    var s1 := c.tabName + " " + c.name;
    var s2 := s1 + " " + IntText(TypeNo(c.colType));
    var s3 := s2 + " " + IntText(c.len);
    var s4 := s3 + " " + IntText(c.offset);
    WordsSnoc(c.tabName, ' ', c.name);
    WordsSnocInt(s1, ' ', TypeNo(c.colType));
    WordsSnocInt(s2, ' ', c.len);
    WordsSnocInt(s3, ' ', c.offset);
    WordsSnoc(s4, ' ', if c.index then "1" else "0");
  }

  lemma {:induction false} ColsText(cols: seq<ColMeta>)
    requires forall c :: c in cols ==> ColPrintable(c)
    ensures Words(PrintCols(cols)) == ColsWords(cols)
    ensures PrintCols(cols) == [] || IsWs(PrintCols(cols)[|PrintCols(cols)| - 1])
  {
    if cols != [] {
      var n := |cols| - 1;
      ColsText(cols[..n]);
      ColText(cols[n]);
      WordsAfter(PrintCols(cols[..n]), PrintCol(cols[n]));
      WordsLine(PrintCols(cols[..n]) + PrintCol(cols[n]));
    }
  }

  lemma {:induction false} IndexColsText(s: string, cols: seq<ColMeta>)
    requires forall c :: c in cols ==> ColPrintable(c)
    ensures Words(s + PrintIndexCols(cols)) == Words(s) + ColsWords(cols)
  {
    hide Words, PrintCol, ColWords, IsWord;
    if cols == [] {
      assert s + PrintIndexCols(cols) == s;
    } else {
      var n := |cols| - 1;
      IndexColsText(s, cols[..n]);
      ColText(cols[n]);
      var front := s + PrintIndexCols(cols[..n]);
      assert s + PrintIndexCols(cols) == front + ['\n'] + PrintCol(cols[n]);
      WordsConcat(front, '\n', PrintCol(cols[n]));
    }
  }

  lemma {:induction false} IndexText(x: IndexMeta)
    requires IndexPrintable(x)
    ensures Words(PrintIndex(x)) == IndexWords(x)
  {
    OneWord(x.tabName);
    var s1 := x.tabName + " " + IntText(x.colTotLen);
    var s2 := s1 + " " + IntText(x.colNum);
    WordsSnocInt(x.tabName, ' ', x.colTotLen);
    WordsSnocInt(s1, ' ', x.colNum);
    IndexColsText(s2, x.cols);
  }

  lemma {:induction false} IndexesText(xs: seq<IndexMeta>)
    requires forall x :: x in xs ==> IndexPrintable(x)
    ensures Words(PrintIndexes(xs)) == IndexesWords(xs)
    ensures PrintIndexes(xs) == [] || IsWs(PrintIndexes(xs)[|PrintIndexes(xs)| - 1])
  {
    if xs != [] {
      var n := |xs| - 1;
      IndexesText(xs[..n]);
      IndexText(xs[n]);
      WordsAfter(PrintIndexes(xs[..n]), PrintIndex(xs[n]));
      WordsLine(PrintIndexes(xs[..n]) + PrintIndex(xs[n]));
    }
  }

  lemma {:induction false} TabText(t: TabMeta)
    requires TabPrintable(t)
    ensures Words(PrintTab(t)) == TabWords(t)
  {
    hide Words, IsWord, PrintCols, PrintIndexes, ColsWords, IndexesWords, SizeText;
    var s1 := t.name + "\n" + SizeText(|t.cols|) + "\n";
    HeadText(t.name, |t.cols|);
    ColsText(t.cols);
    WordsAfter(s1, PrintCols(t.cols));
    var s2 := s1 + PrintCols(t.cols);
    var s3 := s2 + SizeText(|t.indexes|) + "\n";
    CountText(s2, |t.indexes|);
    IndexesText(t.indexes);
    WordsAfter(s3, PrintIndexes(t.indexes));
  }

  lemma {:induction false} HeadText(name: string, n: nat)
    requires IsWord(name)
    ensures Words(name + "\n" + SizeText(n) + "\n") == [name, SizeText(n)]
  {
    OneWord(name);
    WordsSnoc(name, '\n', SizeText(n));
    WordsLine(name + "\n" + SizeText(n));
  }

  lemma {:induction false} CountText(s: string, n: nat)
    requires s != [] && IsWs(s[|s| - 1])
    ensures Words(s + SizeText(n) + "\n") == Words(s) + [SizeText(n)]
  {
    WordsAfter(s, SizeText(n));
    OneWord(SizeText(n));
    WordsLine(s + SizeText(n));
  }

  lemma {:induction false} TabsText(tabs: map<string, TabMeta>, order: seq<string>)
    requires forall k :: k in order ==> k in tabs && TabPrintable(tabs[k])
    ensures Words(PrintTabs(tabs, order)) == TabsWords(tabs, order)
    ensures PrintTabs(tabs, order) == [] || IsWs(PrintTabs(tabs, order)[|PrintTabs(tabs, order)| - 1])
  {
    if order != [] {
      var n := |order| - 1;
      TabsText(tabs, order[..n]);
      TabText(tabs[order[n]]);
      WordsAfter(PrintTabs(tabs, order[..n]), PrintTab(tabs[order[n]]));
      WordsLine(PrintTabs(tabs, order[..n]) + PrintTab(tabs[order[n]]));
    }
  }

  // ----- Reading the words back -----

  lemma {:induction false} ParseColTakes(s: string, c: ColMeta, rest: seq<string>)
    requires ColPrintable(c) && Words(s) == ColWords(c) + rest
    ensures ParseCol(s).Some? && ParseCol(s).value.0 == c && Words(ParseCol(s).value.1) == rest
  {
    hide Words, ReadWord, ReadInt, IntText, IsWord;
    var w := ColWords(c);
    ReadWordTakes(s);
    var s1 := ReadWord(s).value.1;
    assert Words(s1) == w[1..] + rest;
    ReadWordTakes(s1);
    var s2 := ReadWord(s1).value.1;
    assert Words(s2) == w[2..] + rest;
    ReadIntTakes(s2, TypeNo(c.colType));
    var s3 := ReadInt(s2).value.1;
    assert Words(s3) == w[3..] + rest;
    ReadIntTakes(s3, c.len);
    var s4 := ReadInt(s3).value.1;
    assert Words(s4) == w[4..] + rest;
    ReadIntTakes(s4, c.offset);
    var s5 := ReadInt(s4).value.1;
    assert Words(s5) == w[5..] + rest;
    FlagText(c.index);
    ReadIntTakes(s5, if c.index then 1 else 0);
  }

  lemma {:induction false} FlagText(b: bool)
    ensures IntText(if b then 1 else 0) == if b then "1" else "0"
  {
    assert DigitChar(0) == '0' && DigitChar(1) == '1';
  }

  lemma {:induction false} ColsWordsFront(cols: seq<ColMeta>)
    requires cols != []
    ensures ColsWords(cols) == ColWords(cols[0]) + ColsWords(cols[1..])
  {
    var n := |cols| - 1;
    if n > 0 {
      ColsWordsFront(cols[..n]);
      assert cols[..n][1..] == cols[1..][..n - 1];
    } else {
      assert cols[..0] == [] && cols[1..] == [];
    }
  }

  lemma {:induction false} ParseColsTakes(s: string, cols: seq<ColMeta>, rest: seq<string>)
    requires (forall c :: c in cols ==> ColPrintable(c)) && Words(s) == ColsWords(cols) + rest
    ensures var r := ParseCols(s, |cols|); r.Some? && r.value.0 == cols && Words(r.value.1) == rest
    decreases |cols|
  {
    hide Words, ParseCol, ColWords, ColPrintable;
    if cols != [] {
      ColsWordsFront(cols);
      ParseColTakes(s, cols[0], ColsWords(cols[1..]) + rest);
      ParseColsTakes(ParseCol(s).value.1, cols[1..], rest);
    }
  }

  lemma {:induction false} ParseIndexTakes(s: string, x: IndexMeta, rest: seq<string>)
    requires IndexPrintable(x) && Words(s) == IndexWords(x) + rest
    ensures ParseIndex(s).Some? && ParseIndex(s).value.0 == x && Words(ParseIndex(s).value.1) == rest
  {
    hide Words, ReadWord, ReadInt, IntText, IsWord, ParseCols, ColsWords;
    ReadWordTakes(s);
    var s1 := ReadWord(s).value.1;
    assert Words(s1) == [IntText(x.colTotLen), IntText(x.colNum)] + ColsWords(x.cols) + rest;
    ReadIntTakes(s1, x.colTotLen);
    var s2 := ReadInt(s1).value.1;
    assert Words(s2) == [IntText(x.colNum)] + ColsWords(x.cols) + rest;
    ReadIntTakes(s2, x.colNum);
    ParseColsTakes(ReadInt(s2).value.1, x.cols, rest);
  }

  lemma {:induction false} IndexesWordsFront(xs: seq<IndexMeta>)
    requires xs != []
    ensures IndexesWords(xs) == IndexWords(xs[0]) + IndexesWords(xs[1..])
  {
    var n := |xs| - 1;
    if n > 0 {
      IndexesWordsFront(xs[..n]);
      assert xs[..n][1..] == xs[1..][..n - 1];
    } else {
      assert xs[..0] == [] && xs[1..] == [];
    }
  }

  lemma {:induction false} ParseIndexesTakes(s: string, xs: seq<IndexMeta>, rest: seq<string>)
    requires (forall x :: x in xs ==> IndexPrintable(x)) && Words(s) == IndexesWords(xs) + rest
    ensures var r := ParseIndexes(s, |xs|); r.Some? && r.value.0 == xs && Words(r.value.1) == rest
    decreases |xs|
  {
    hide Words, ParseIndex, IndexWords, IndexPrintable;
    if xs != [] {
      IndexesWordsFront(xs);
      ParseIndexTakes(s, xs[0], IndexesWords(xs[1..]) + rest);
      ParseIndexesTakes(ParseIndex(s).value.1, xs[1..], rest);
    }
  }

  lemma {:induction false} ParseTabTakes(s: string, t: TabMeta, rest: seq<string>)
    requires TabPrintable(t) && Words(s) == TabWords(t) + rest
    ensures ParseTab(s).Some? && ParseTab(s).value.0 == t && Words(ParseTab(s).value.1) == rest
  {
    hide Words, ReadWord, ReadSize, SizeText, IsWord, ParseCols, ParseIndexes, ColsWords, IndexesWords;
    var n, m := SizeText(|t.cols|), SizeText(|t.indexes|);
    var tail := [m] + IndexesWords(t.indexes) + rest;
    ReadWordTakes(s);
    var s1 := ReadWord(s).value.1;
    assert Words(s1) == [n] + (ColsWords(t.cols) + tail);
    ReadSizeTakes(s1, |t.cols|);
    var s2 := ReadSize(s1).value.1;
    ParseColsTakes(s2, t.cols, tail);
    var s3 := ParseCols(s2, |t.cols|).value.1;
    ReadSizeTakes(s3, |t.indexes|);
    assert tail[1..] == IndexesWords(t.indexes) + rest;
    ParseIndexesTakes(ReadSize(s3).value.1, t.indexes, rest);
  }

  lemma {:induction false} TabsWordsFront(tabs: map<string, TabMeta>, order: seq<string>)
    requires order != [] && forall k :: k in order ==> k in tabs
    ensures TabsWords(tabs, order) == TabWords(tabs[order[0]]) + TabsWords(tabs, order[1..])
  {
    var n := |order| - 1;
    if n > 0 {
      TabsWordsFront(tabs, order[..n]);
      assert order[..n][1..] == order[1..][..n - 1];
    } else {
      assert order[..0] == [] && order[1..] == [];
    }
  }

  /** Reading the listed tables enters each of them. */
  lemma {:induction false} ParseTabsTakes(s: string, tabs: map<string, TabMeta>, order: seq<string>, got: map<string, TabMeta>)
    requires forall k :: k in order ==> k in tabs && TabPrintable(tabs[k]) && tabs[k].name == k
    requires Words(s) == TabsWords(tabs, order)
    ensures var r := ParseTabs(s, |order|, got);
            r.Some? && r.value.0 == got + (map k | k in order :: tabs[k]) && Words(r.value.1) == []
    decreases |order|
  {
    hide Words, ParseTab, TabWords, TabPrintable;
    if order == [] {
      assert got + (map k | k in order :: tabs[k]) == got;
    } else {
      var t := tabs[order[0]];
      TabsWordsFront(tabs, order);
      ParseTabTakes(s, t, TabsWords(tabs, order[1..]));
      ParseTabsTakes(ParseTab(s).value.1, tabs, order[1..], got[t.name := t]);
      assert order == [order[0]] + order[1..];
      assert got[t.name := t] + (map k | k in order[1..] :: tabs[k]) == got + (map k | k in order :: tabs[k]);
    }
  }

  /** Printing a catalog, in whatever order the map lists its tables, and
      parsing the text gives the catalog back and leaves only whitespace. */
  lemma {:induction false} CatalogRoundTrip(db: DbMeta, order: seq<string>)
    requires DbPrintable(db) && Distinct(order) && Elems(order) == db.tabs.Keys
    requires forall k :: k in order ==> k in db.tabs
    ensures var r := ParseDb(PrintDb(db, order)); r.Some? && r.value.0 == db && Words(r.value.1) == []
  {
    hide Words, ReadWord, ReadSize, SizeText, IsWord, PrintTabs, TabPrintable, TabWords, TabsWords;
    var text := PrintDb(db, order);
    var head := db.name + "\n" + SizeText(|order|) + "\n";
    HeadText(db.name, |order|);
    TabsText(db.tabs, order);
    WordsAfter(head, PrintTabs(db.tabs, order));
    assert Words(text) == [db.name, SizeText(|order|)] + TabsWords(db.tabs, order);
    ReadWordTakes(text);
    var s1 := ReadWord(text).value.1;
    assert Words(s1) == [SizeText(|order|)] + TabsWords(db.tabs, order);
    ReadSizeTakes(s1, |order|);
    var s2 := ReadSize(s1).value.1;
    assert Words(s2) == TabsWords(db.tabs, order);
    ParseTabsTakes(s2, db.tabs, order, map[]);
    assert forall k :: k in order <==> k in Elems(order);
    assert map[] + (map k | k in order :: db.tabs[k]) == db.tabs;
  }

  // ----- The operators as they run over a stream -----

  lemma {:induction false} Reassoc(a: string, b: string, c: string)
    ensures a + b + c == a + (b + c)
  {
  }

  method WriteCols(os: string, cols: seq<ColMeta>) returns (out: string)
    ensures out == os + PrintCols(cols)
  {
    hide PrintCol;
    out := os;
    for i := 0 to |cols|
      invariant out == os + PrintCols(cols[..i])
    {
      assert cols[..i + 1][..i] == cols[..i];
      Reassoc(os, PrintCols(cols[..i]), PrintCol(cols[i]));
      Reassoc(os, PrintCols(cols[..i]) + PrintCol(cols[i]), "\n");
      out := out + PrintCol(cols[i]) + "\n";
    }
    assert cols[..|cols|] == cols;
  }

  method WriteIndexes(os: string, xs: seq<IndexMeta>) returns (out: string)
    ensures out == os + PrintIndexes(xs)
  {
    hide PrintIndex;
    out := os;
    for i := 0 to |xs|
      invariant out == os + PrintIndexes(xs[..i])
    {
      assert xs[..i + 1][..i] == xs[..i];
      Reassoc(os, PrintIndexes(xs[..i]), PrintIndex(xs[i]));
      Reassoc(os, PrintIndexes(xs[..i]) + PrintIndex(xs[i]), "\n");
      out := out + PrintIndex(xs[i]) + "\n";
    }
    assert xs[..|xs|] == xs;
  }

  method WriteTab(os: string, t: TabMeta) returns (out: string)
    ensures out == os + PrintTab(t)
  {
    hide PrintCols, PrintIndexes, SizeText;
    var head := t.name + "\n" + SizeText(|t.cols|) + "\n";
    out := WriteCols(os + head, t.cols);
    var count := SizeText(|t.indexes|) + "\n";
    out := WriteIndexes(out + count, t.indexes);
    assert PrintTab(t) == head + PrintCols(t.cols) + count + PrintIndexes(t.indexes);
    Reassoc(os, head, PrintCols(t.cols));
    Reassoc(os, head + PrintCols(t.cols), count);
    Reassoc(os, head + PrintCols(t.cols) + count, PrintIndexes(t.indexes));
  }

  method WriteDb(os: string, db: DbMeta, order: seq<string>) returns (out: string)
    requires forall k :: k in order ==> k in db.tabs
    ensures out == os + PrintDb(db, order)
  {
    hide PrintTab, SizeText;
    var head := db.name + "\n" + SizeText(|order|) + "\n";
    out := os + head;
    for i := 0 to |order|
      invariant out == os + head + PrintTabs(db.tabs, order[..i])
    {
      assert order[..i + 1][..i] == order[..i];
      ghost var done, tab := PrintTabs(db.tabs, order[..i]), PrintTab(db.tabs[order[i]]);
      Reassoc(os + head, done, tab);
      Reassoc(os + head, done + tab, "\n");
      out := WriteTab(out, db.tabs[order[i]]);
      out := out + "\n";
    }
    assert order[..|order|] == order;
    Reassoc(os, head, PrintTabs(db.tabs, order));
  }

  ghost function Prepend<T>(xs: seq<T>, o: Option<(seq<T>, string)>): Option<(seq<T>, string)> {
    if o.None? then None else Some((xs + o.value.0, o.value.1))
  }

  lemma {:induction false} PrependNone<T>(o: Option<(seq<T>, string)>)
    ensures Prepend([], o) == o
  {
    if o.Some? { assert [] + o.value.0 == o.value.0; }
  }

  lemma {:induction false} PrependOne<T>(xs: seq<T>, x: T, o: Option<(seq<T>, string)>)
    ensures Prepend(xs, Prepend([x], o)) == Prepend(xs + [x], o)
  {
    if o.Some? { assert xs + ([x] + o.value.0) == xs + [x] + o.value.0; }
  }

  method ReadCols(input: string, n: nat) returns (r: Option<(seq<ColMeta>, string)>)
    ensures r == ParseCols(input, n)
  {
    hide ParseCol;
    var s, cols := input, [];
    PrependNone(ParseCols(input, n));
    for i := 0 to n
      invariant ParseCols(input, n) == Prepend(cols, ParseCols(s, n - i))
    {
      var col := ParseCol(s);
      if col.None? {
        return None;
      }
      PrependOne(cols, col.value.0, ParseCols(col.value.1, n - i - 1));
      cols, s := cols + [col.value.0], col.value.1;
    }
    assert cols + [] == cols;
    return Some((cols, s));
  }

  method ReadIndex(input: string) returns (r: Option<(IndexMeta, string)>)
    ensures r == ParseIndex(input)
  {
    var tab := ReadWord(input);
    if tab.None? { return None; }
    var tot := ReadInt(tab.value.1);
    if tot.None? { return None; }
    var num := ReadInt(tot.value.1);
    if num.None? { return None; }
    var cols := ReadCols(num.value.1, if num.value.0 < 0 then 0 else num.value.0);
    if cols.None? { return None; }
    return Some((IndexMeta(tab.value.0, tot.value.0, num.value.0, cols.value.0), cols.value.1));
  }

  method ReadTab(input: string) returns (r: Option<(TabMeta, string)>)
    ensures r == ParseTab(input)
  {
    var name := ReadWord(input);
    if name.None? { return None; }
    var n := ReadSize(name.value.1);
    if n.None? { return None; }
    var cols := ReadCols(n.value.1, n.value.0);
    if cols.None? { return None; }
    var m := ReadSize(cols.value.1);
    if m.None? { return None; }
    var xs := ReadIndexes(m.value.1, m.value.0);
    if xs.None? { return None; }
    return Some((TabMeta(name.value.0, cols.value.0, xs.value.0), xs.value.1));
  }

  method ReadIndexes(input: string, n: nat) returns (r: Option<(seq<IndexMeta>, string)>)
    ensures r == ParseIndexes(input, n)
  {
    hide ParseIndex;
    var s, indexes := input, [];
    PrependNone(ParseIndexes(input, n));
    for i := 0 to n
      invariant ParseIndexes(input, n) == Prepend(indexes, ParseIndexes(s, n - i))
    {
      var index := ReadIndex(s);
      if index.None? { return None; }
      PrependOne(indexes, index.value.0, ParseIndexes(index.value.1, n - i - 1));
      indexes, s := indexes + [index.value.0], index.value.1;
    }
    assert indexes + [] == indexes;
    return Some((indexes, s));
  }

  method ReadDb(input: string) returns (r: Option<(DbMeta, string)>)
    ensures r == ParseDb(input)
  {
    hide ParseTab, ReadWord, ReadSize;
    var name := ReadWord(input);
    if name.None? { return None; }
    var n := ReadSize(name.value.1);
    if n.None? { return None; }
    var s, tabs := n.value.1, map[];
    for i := 0 to n.value.0
      invariant ParseTabs(n.value.1, n.value.0, map[]) == ParseTabs(s, n.value.0 - i, tabs)
    {
      var tab := ReadTab(s);
      if tab.None? { return None; }
      tabs, s := tabs[tab.value.0.name := tab.value.0], tab.value.1;
    }
    return Some((DbMeta(name.value.0, tabs), s));
  }
}
