/** The window index behind the leak scan: one dictionary from windows to files, one
    walk over each corpus, and three buckets of findings. */
module LeakScan {
  import opened Options
  import opened Text

  type Name = string
  type Index = map<string, set<Name>>

  /** A scanned file: its name and its folded text. */
  datatype File = File(name: Name, text: string)

  /** Both texts contain a common run of `width` characters. */
  ghost predicate ShareRun(a: string, b: string, width: nat) {
    exists w: string :: |w| == width && Occurs(w, a) && Occurs(w, b)
  }

  function WindowAt(text: string, width: nat, i: int): string
    requires 0 <= i <= |text| - width
  {
    text[i..i + width]
  }

  /** All substrings of one length. */
  function Windows(text: string, width: nat): set<string> {
    set i | 0 <= i <= |text| - width :: WindowAt(text, width, i)
  }

  lemma WindowsOccur(text: string, width: nat, w: string)
    ensures w in Windows(text, width) <==> |w| == width && Occurs(w, text)
  {
    if w in Windows(text, width) {
      var i :| 0 <= i <= |text| - width && WindowAt(text, width, i) == w;
      assert OccursAt(w, text, i);
    }
    if |w| == width && Occurs(w, text) {
      var i: nat :| i <= |text| && OccursAt(w, text, i);
      assert WindowAt(text, width, i) == w;
    }
  }

  lemma ShareRunIff(a: string, b: string, width: nat)
    ensures ShareRun(a, b, width) <==> Windows(a, width) * Windows(b, width) != {}
  {
    hide Windows, Occurs;
    if ShareRun(a, b, width) {
      var w: string :| |w| == width && Occurs(w, a) && Occurs(w, b);
      WindowsOccur(a, width, w);
      WindowsOccur(b, width, w);
      assert w in Windows(a, width) * Windows(b, width);
    }
    if Windows(a, width) * Windows(b, width) != {} {
      var w :| w in Windows(a, width) * Windows(b, width);
      WindowsOccur(a, width, w);
      WindowsOccur(b, width, w);
    }
  }

  /** The windows of all files of one name. */
  function WindowsOf(files: seq<File>, name: Name, width: nat): set<string> {
    if files == [] then {}
    else WindowsOf(files[..|files| - 1], name, width)
         + (if files[|files| - 1].name == name then Windows(files[|files| - 1].text, width) else {})
  }

  // ----- building the index -----

  function NamesFor(index: Index, w: string): set<Name> {
    if w in index then index[w] else {}
  }

  /** The index holds exactly the (window, name) pairs of the files taken so far. */
  ghost predicate Indexes(index: Index, files: seq<File>, width: nat) {
    && (forall w :: w in index ==> index[w] != {})
    && forall w, n :: n in NamesFor(index, w) <==> w in WindowsOf(files, n, width)
  }

  /** The windows of the first i start positions. */
  function FirstWindows(text: string, width: nat, i: nat): set<string> {
    set k | 0 <= k < i && k <= |text| - width :: WindowAt(text, width, k)
  }

  lemma NextWindow(text: string, width: nat, i: nat)
    requires i + width <= |text|
    ensures FirstWindows(text, width, i + 1) == FirstWindows(text, width, i) + {text[i..i + width]}
  {
    assert WindowAt(text, width, i) == text[i..i + width];
  }

  lemma NoWindows(text: string, width: nat)
    ensures FirstWindows(text, width, 0) == {}
  {
  }

  lemma AllWindows(text: string, width: nat, stop: nat)
    requires stop == if |text| + 1 >= width then |text| + 1 - width else 0
    ensures FirstWindows(text, width, stop) == Windows(text, width)
  {
  }

  lemma AddName(index: Index, w: string, name: Name)
    ensures forall x :: NamesFor(index[w := NamesFor(index, w) + {name}], x)
                     == NamesFor(index, x) + (if x == w then {name} else {})
  {
  }

  method TakeFile(index: Index, file: File, width: nat) returns (r: Index)
    requires forall w :: w in index ==> index[w] != {}
    ensures forall w :: w in r ==> r[w] != {}
    ensures forall w, n :: n in NamesFor(r, w) <==>
              n in NamesFor(index, w) || (n == file.name && w in Windows(file.text, width))
  {
    hide FirstWindows, Windows, NamesFor;
    r := index;
    NoWindows(file.text, width);
    var stop := if |file.text| + 1 >= width then |file.text| + 1 - width else 0;
    for i := 0 to stop
      invariant forall w :: w in r ==> r[w] != {}
      invariant forall w, n :: n in NamesFor(r, w) <==>
                  n in NamesFor(index, w) || (n == file.name && w in FirstWindows(file.text, width, i))
    {
      var w := file.text[i..i + width];
      NextWindow(file.text, width, i);
      AddName(r, w, file.name);
      r := r[w := NamesFor(r, w) + {file.name}];
    }
    AllWindows(file.text, width, stop);
  }

  method BuildIndex(files: seq<File>, width: nat) returns (index: Index)
    ensures Indexes(index, files, width)
  {
    hide Windows;
    index := map[];
    for f := 0 to |files|
      invariant Indexes(index, files[..f], width)
    {
      var longer := TakeFile(index, files[f], width);
      OneMoreFile(index, longer, files, f, width);
      index := longer;
    }
    assert files[..|files|] == files;
  }

  lemma OneMoreFile(index: Index, longer: Index, files: seq<File>, f: nat, width: nat)
    requires f < |files| && Indexes(index, files[..f], width)
    requires forall w :: w in longer ==> longer[w] != {}
    requires forall w, n :: n in NamesFor(longer, w) <==>
               n in NamesFor(index, w) || (n == files[f].name && w in Windows(files[f].text, width))
    ensures Indexes(longer, files[..f + 1], width)
  {
    hide Windows;
    assert files[..f + 1][..f] == files[..f];
    forall w, n ensures n in NamesFor(longer, w) <==> w in WindowsOf(files[..f + 1], n, width) {
    }
  }

  // ----- sweeping a corpus -----

  /** One walk over a corpus: which of its windows the index knows. */
  method Sweep(corpus: string, index: Index, width: nat) returns (found: set<string>)
    ensures found == Windows(corpus, width) * index.Keys
  {
    hide FirstWindows, Windows;
    found := {};
    NoWindows(corpus, width);
    var stop := if |corpus| + 1 >= width then |corpus| + 1 - width else 0;
    for i := 0 to stop
      invariant found == FirstWindows(corpus, width, i) * index.Keys
    {
      var piece := corpus[i..i + width];
      NextWindow(corpus, width, i);
      if piece in index {
        found := found + {piece};
      }
    }
    AllWindows(corpus, width, stop);
  }

  // ----- counting findings per file -----

  /** The pieces among `pieces` that the index gives to one name. */
  function Held(pieces: set<string>, index: Index, name: Name): set<string> {
    set w | w in pieces && name in NamesFor(index, w)
  }

  /** Window counts per name, with an entry only where there is a finding. */
  ghost predicate Counts(r: map<Name, nat>, pieces: set<string>, index: Index) {
    && (forall n :: n in r <==> Held(pieces, index, n) != {})
    && forall n :: n in r ==> r[n] == |Held(pieces, index, n)|
  }

  method AddPiece(r: map<Name, nat>, names: set<Name>) returns (t: map<Name, nat>)
    ensures t.Keys == r.Keys + names
    ensures forall n :: n in t ==> t[n] == (if n in r then r[n] else 0) + (if n in names then 1 else 0)
  {
    t := r;
    var left := names;
    while left != {}
      invariant left <= names && t.Keys == r.Keys + (names - left)
      invariant forall n :: n in t ==> t[n] == (if n in r then r[n] else 0) + (if n in names && n !in left then 1 else 0)
      decreases left
    {
      var n :| n in left;
      left := left - {n};
      t := t[n := (if n in t then t[n] else 0) + 1];
    }
  }

  lemma HeldGrows(pieces: set<string>, piece: string, index: Index, n: Name)
    requires piece !in pieces && piece in index
    ensures Held(pieces + {piece}, index, n) == Held(pieces, index, n) + (if n in index[piece] then {piece} else {})
    ensures |Held(pieces + {piece}, index, n)| == |Held(pieces, index, n)| + (if n in index[piece] then 1 else 0)
  {
    assert Held(pieces + {piece}, index, n) == Held(pieces, index, n) + (if n in index[piece] then {piece} else {});
    assert piece !in Held(pieces, index, n);
  }

  method Locate(pieces: set<string>, index: Index) returns (r: map<Name, nat>)
    requires pieces <= index.Keys
    ensures Counts(r, pieces, index)
  {
    r := map[];
    var left := pieces;
    assert forall n :: Held({}, index, n) == {};
    assert pieces - left == {};
    while left != {}
      invariant left <= pieces && Counts(r, pieces - left, index)
      decreases left
    {
      var piece :| piece in left;
      var t := AddPiece(r, index[piece]);
      CountsGrow(r, t, pieces - left, piece, index);
      assert pieces - (left - {piece}) == pieces - left + {piece};
      r, left := t, left - {piece};
    }
    assert pieces - left == pieces;
  }

  lemma CountsGrow(r: map<Name, nat>, t: map<Name, nat>, pieces: set<string>, piece: string, index: Index)
    requires Counts(r, pieces, index) && piece !in pieces && piece in index
    requires t.Keys == r.Keys + index[piece]
    requires forall n :: n in t ==> t[n] == (if n in r then r[n] else 0) + (if n in index[piece] then 1 else 0)
    ensures Counts(t, pieces + {piece}, index)
  {
    hide Held;
    forall n
      ensures n in t <==> Held(pieces + {piece}, index, n) != {}
      ensures n in t ==> t[n] == |Held(pieces + {piece}, index, n)|
    {
      HeldGrows(pieces, piece, index, n);
    }
  }

  // ----- the scan -----

  /** Pieces that carry a document fact, by the rule `specific`. */
  function Specific(pieces: set<string>, specific: string -> bool): set<string> {
    set w | w in pieces && specific(w)
  }

  function Prose(pieces: set<string>, specific: string -> bool): set<string> {
    set w | w in pieces && !specific(w)
  }

  datatype Report = Report(documentHits: map<Name, nat>, proseHits: map<Name, nat>, fullOnlyHits: map<Name, nat>)

  /** The three buckets of one name against naive search: specific document windows, other
      document windows, windows of the full corpus only. */
  ghost predicate Scanned(files: seq<File>, documents: string, full: string, width: nat, specific: string -> bool,
      r: Report, n: Name)
  {
    var mine, docs, all := WindowsOf(files, n, width), Windows(documents, width), Windows(full, width);
    && Reports(r.documentHits, n, Specific(mine * docs, specific))
    && Reports(r.proseHits, n, Prose(mine * docs, specific))
    && Reports(r.fullOnlyHits, n, mine * all - docs)
  }

  /** Refuses an empty input; otherwise sorts every shared window into one bucket:
      specific document windows, other document windows, windows of the full corpus only. */
  method Scan(files: seq<File>, documents: string, full: string, width: nat, specific: string -> bool)
    returns (r: Option<Report>)
    ensures r.None? <==> files == []
    ensures r.Some? ==> forall n :: Scanned(files, documents, full, width, specific, r.value, n)
  {
    if files == [] {
      return None;
    }
    var index := BuildIndex(files, width);
    var inDocuments := Sweep(documents, index, width);
    var inFull := Sweep(full, index, width);
    var hard := Specific(inDocuments, specific);
    var soft := Prose(inDocuments, specific);
    var extra := inFull - inDocuments;
    var a := Locate(hard, index);
    var b := Locate(soft, index);
    var c := Locate(extra, index);
    r := Some(Report(a, b, c));
    forall n
      ensures Held(hard, index, n) == Specific(WindowsOf(files, n, width) * Windows(documents, width), specific)
      ensures Held(soft, index, n) == Prose(WindowsOf(files, n, width) * Windows(documents, width), specific)
      ensures Held(extra, index, n) == WindowsOf(files, n, width) * Windows(full, width) - Windows(documents, width)
    {
      HeldIsShared(index, files, width, n, Windows(documents, width), hard, soft, specific);
      HeldIsExtra(index, files, width, n, Windows(documents, width), Windows(full, width), extra);
    }
  }

  /** A bucket lists a name exactly when it has findings, and with their number. */
  predicate Reports(bucket: map<Name, nat>, n: Name, findings: set<string>) {
    (n in bucket <==> findings != {}) && (n in bucket ==> bucket[n] == |findings|)
  }

  lemma HeldIsShared(index: Index, files: seq<File>, width: nat, n: Name, docs: set<string>,
                     hard: set<string>, soft: set<string>, specific: string -> bool)
    requires Indexes(index, files, width)
    requires hard == Specific(docs * index.Keys, specific)
    requires soft == Prose(docs * index.Keys, specific)
    ensures Held(hard, index, n) == Specific(WindowsOf(files, n, width) * docs, specific)
    ensures Held(soft, index, n) == Prose(WindowsOf(files, n, width) * docs, specific)
  {
    hide WindowsOf;
    var mine := WindowsOf(files, n, width);
    forall w
      ensures w in Held(hard, index, n) <==> w in Specific(mine * docs, specific)
      ensures w in Held(soft, index, n) <==> w in Prose(mine * docs, specific)
    {
      assert n in NamesFor(index, w) <==> w in mine;
    }
  }

  lemma HeldIsExtra(index: Index, files: seq<File>, width: nat, n: Name, docs: set<string>, all: set<string>, extra: set<string>)
    requires Indexes(index, files, width)
    requires extra == all * index.Keys - docs * index.Keys
    ensures Held(extra, index, n) == WindowsOf(files, n, width) * all - docs
  {
    hide WindowsOf;
    var mine := WindowsOf(files, n, width);
    forall w ensures w in Held(extra, index, n) <==> w in mine * all - docs {
      assert n in NamesFor(index, w) <==> w in mine;
    }
  }

  /** The documents are a prefix of the full corpus, so its windows include theirs. */
  lemma PrefixWindows(documents: string, full: string, width: nat)
    requires documents <= full
    ensures Windows(documents, width) <= Windows(full, width)
  {
    forall w | w in Windows(documents, width) ensures w in Windows(full, width) {
      var i :| 0 <= i <= |documents| - width && WindowAt(documents, width, i) == w;
      assert WindowAt(full, width, i) == w;
    }
  }

  /** The three findings of one file partition the windows it shares with the full corpus. */
  lemma BucketsPartition(mine: set<string>, docs: set<string>, all: set<string>, specific: string -> bool)
    requires docs <= all
    ensures var hard, soft, extra := Specific(mine * docs, specific), Prose(mine * docs, specific), mine * all - docs;
      && hard + soft + extra == mine * all
      && hard !! soft && hard !! extra && soft !! extra
      && |hard| + |soft| + |extra| == |mine * all|
      && |hard| + |soft| == |mine * docs|
  {
    var hard, soft, extra := Specific(mine * docs, specific), Prose(mine * docs, specific), mine * all - docs;
    assert hard + soft == mine * docs;
    assert mine * docs + extra == mine * all;
  }

  lemma {:induction false} WindowsOfFiles(files: seq<File>, n: Name, width: nat, w: string)
    ensures w in WindowsOf(files, n, width) <==>
              exists f :: f in files && f.name == n && w in Windows(f.text, width)
    decreases |files|
  {
    hide Windows;
    if files != [] {
      var front, last := files[..|files| - 1], files[|files| - 1];
      WindowsOfFiles(front, n, width, w);
      assert files == front + [last];
      assert last in files;
      forall f | f in files ensures f in front || f == last {
      }
    }
  }

  /** Some file of this name shares a run of the window's length with the corpus. */
  ghost predicate SharesRun(files: seq<File>, n: Name, corpus: string, width: nat) {
    exists f :: f in files && f.name == n && ShareRun(f.text, corpus, width)
  }

  lemma SharesRunIff(files: seq<File>, n: Name, corpus: string, width: nat)
    ensures SharesRun(files, n, corpus, width) <==> WindowsOf(files, n, width) * Windows(corpus, width) != {}
  {
    hide ShareRun, Windows, WindowsOf;
    if SharesRun(files, n, corpus, width) {
      var f :| f in files && f.name == n && ShareRun(f.text, corpus, width);
      ShareRunIff(f.text, corpus, width);
      var w := Pick(Windows(f.text, width) * Windows(corpus, width));
      WindowsOfFiles(files, n, width, w);
      assert w in WindowsOf(files, n, width) * Windows(corpus, width);
    }
    if WindowsOf(files, n, width) * Windows(corpus, width) != {} {
      var w := Pick(WindowsOf(files, n, width) * Windows(corpus, width));
      WindowsOfFiles(files, n, width, w);
      var f :| f in files && f.name == n && w in Windows(f.text, width);
      assert w in Windows(f.text, width) * Windows(corpus, width);
      ShareRunIff(f.text, corpus, width);
    }
  }

  /** Whatever else is scanned, a name is found against the documents exactly when one of
      its files shares a run of the window's length with them, and against the full corpus
      exactly when one of its files shares such a run with it. */
  lemma FoundIffSharesRun(files: seq<File>, documents: string, full: string, width: nat, specific: string -> bool,
      r: Report, n: Name)
    requires Scanned(files, documents, full, width, specific, r, n)
    ensures n in r.documentHits || n in r.proseHits <==> SharesRun(files, n, documents, width)
    ensures documents <= full ==>
              (n in r.documentHits || n in r.proseHits || n in r.fullOnlyHits <==> SharesRun(files, n, full, width))
  {
    SharesRunIff(files, n, documents, width);
    SharesRunIff(files, n, full, width);
    var mine, docs, all := WindowsOf(files, n, width), Windows(documents, width), Windows(full, width);
    hide SharesRun, WindowsOf, Windows, Specific, Prose;
    DocumentBuckets(mine, docs, specific);
    if documents <= full {
      PrefixWindows(documents, full, width);
      BucketsPartition(mine, docs, all, specific);
    }
  }

  lemma DocumentBuckets(mine: set<string>, docs: set<string>, specific: string -> bool)
    ensures Specific(mine * docs, specific) + Prose(mine * docs, specific) == mine * docs
  {
  }
}
