/** The names under which downloads are saved. */
module Downloader {
  import opened Text

  // ---------- stripping path components ----------

  /** filepath.Split: up to and including the last slash, and what follows it. */
  function SplitPath(s: Text): (r: (Text, Text))
    ensures s == r.0 + r.1
    ensures SLASH !in r.1 && (r.0 == [] || r.0[|r.0| - 1] == SLASH)
    decreases |s|
  {
    if s == [] then ([], [])
    else if s[|s| - 1] == SLASH then (s, [])
    else
      var (dir, base) := SplitPath(s[..|s| - 1]);
      assert s == s[..|s| - 1] + [s[|s| - 1]];
      (dir, base + [s[|s| - 1]])
  }

  function NonEmpty(elements: seq<Text>): seq<Text> {
    if elements == [] then []
    else (if elements[0] != [] then [elements[0]] else []) + NonEmpty(elements[1..])
  }

  /** filepath.Join on clean elements: empty ones are left out. */
  function JoinPath(elements: seq<Text>): Text {
    Join(NonEmpty(elements), [SLASH])
  }

  /** The directories that are left; every slice is within bounds for every count. */
  function KeptDirs(dirs: seq<Text>, count: int): seq<Text>
    requires dirs != []
  {
    if count > |dirs| then []
    else if count < -|dirs| then dirs
    else if count < 0 then dirs[(|dirs| + count) % |dirs|..]
    else dirs[count..]
  }

  datatype DownloadMode = PreserveRequestFile | PreserveRequestPath

  datatype FileNamer = Mode(mode: DownloadMode) | StripComponents(count: int)

  function TrimSlashes(s: Text): Text {
    if s != [] && s[0] == SLASH then TrimSlashes(s[1..]) else s
  }

  function WithStripComponents(mode: DownloadMode, count: int): FileNamer {
    if mode.PreserveRequestPath? then StripComponents(count) else Mode(mode)
  }

  function Stripped(res: Text, count: int): Text {
    if count == 0 then res
    else
      var (dir, base) := SplitPath(res);
      JoinPath(KeptDirs(Split(dir, SLASH), count) + [base])
  }

  function FileName(namer: FileNamer, uri: Text): Text {
    match namer
    case Mode(PreserveRequestFile) => SplitPath(uri).1
    case Mode(PreserveRequestPath) => TrimSlashes(uri)
    case StripComponents(count) => Stripped(TrimSlashes(uri), count)
  }

  /** A component that filepath.Join leaves as it is. */
  predicate CleanName(s: Text) {
    s != [] && SLASH !in s && s != [DOT] && s != [DOT, DOT]
  }

  /** How many of n directories a count keeps. */
  function Kept(n: nat, count: int): (k: nat)
    ensures k <= n
  {
    if count >= 0 then (if count >= n then 0 else n - count)
    else if -count - 1 < n then -count - 1
    else n
  }

  lemma {:induction false} SplitPathAt(dir: Text, base: Text)
    requires SLASH !in base && (dir == [] || dir[|dir| - 1] == SLASH)
    ensures SplitPath(dir + base) == (dir, base)
  {
    if base == [] {
      assert dir + base == dir;
    } else {
      var front, s := base[..|base| - 1], dir + base;
      SplitPathAt(dir, front);
      assert s[..|s| - 1] == dir + front;
      assert base == front + [base[|base| - 1]];
    }
  }

  lemma {:induction false} NonEmptyOfClean(elements: seq<Text>)
    requires forall i :: 0 <= i < |elements| ==> elements[i] != []
    ensures NonEmpty(elements) == elements
  {
    if elements != [] {
      assert forall i :: 0 <= i < |elements| - 1 ==> elements[1..][i] == elements[i + 1];
      NonEmptyOfClean(elements[1..]);
    }
  }

  lemma {:induction false} NonEmptySkips(front: seq<Text>, back: seq<Text>)
    ensures NonEmpty(front + [[]] + back) == NonEmpty(front + back)
  {
    if front == [] {
      assert front + [[]] + back == [[]] + back && front + back == back;
      assert ([[]] + back)[1..] == back;
    } else {
      NonEmptySkips(front[1..], back);
      assert (front + [[]] + back)[1..] == front[1..] + [[]] + back;
      assert (front + back)[1..] == front[1..] + back;
    }
  }

  /** The text up to the last slash of a path with these directories. */
  function DirText(dirs: seq<Text>): Text {
    Join(dirs + [[]], [SLASH])
  }

  lemma DirTextAndBase(dirs: seq<Text>, base: Text)
    ensures Join(dirs + [base], [SLASH]) == DirText(dirs) + base
    ensures DirText(dirs) == [] || DirText(dirs)[|DirText(dirs)| - 1] == SLASH
  {
    if dirs == [] {
      assert dirs + [[]] == [[]] && dirs + [base] == [base];
      assert [] + base == base;
    } else {
      JoinAppend(dirs, [], [SLASH]);
      JoinAppend(dirs, base, [SLASH]);
      assert DirText(dirs) == Join(dirs, [SLASH]) + [SLASH];
    }
  }

  lemma SplitOfDirs(dirs: seq<Text>)
    requires forall i :: 0 <= i < |dirs| ==> SLASH !in dirs[i]
    ensures Split(DirText(dirs), SLASH) == dirs + [[]]
  {
    var all := dirs + [[]];
    assert forall i :: 0 <= i < |all| ==> SLASH !in all[i];
    hide Split, Join;
    SplitOfJoin(all, SLASH);
  }

  /** The path dirs/base is taken apart into its directories and one empty element. */
  lemma DirsOfPath(dirs: seq<Text>, base: Text)
    requires CleanName(base) && forall i :: 0 <= i < |dirs| ==> CleanName(dirs[i])
    ensures SplitPath(Join(dirs + [base], [SLASH])) == (DirText(dirs), base)
    ensures Split(DirText(dirs), SLASH) == dirs + [[]]
  {
    hide DirText, SplitPath, Split, Join;
    DirTextAndBase(dirs, base);
    SplitPathAt(DirText(dirs), base);
    SplitOfDirs(dirs);
  }

  /** On a clean path, stripping keeps a suffix of the directories, and always the base:
      max(0, n - count) of n directories, or for a negative count min(n, -count - 1). */
  lemma StrippedKeepsSuffix(dirs: seq<Text>, base: Text, count: int)
    requires CleanName(base) && forall i :: 0 <= i < |dirs| ==> CleanName(dirs[i])
    ensures Stripped(Join(dirs + [base], [SLASH]), count) ==
            Join(dirs[|dirs| - Kept(|dirs|, count)..] + [base], [SLASH])
  {
    DirsOfPath(dirs, base);
    if count == 0 {
      assert dirs[0..] == dirs;
    } else {
      JoinKept(dirs, base, count);
    }
  }

  lemma PathStart(dirs: seq<Text>, base: Text)
    requires CleanName(base) && forall i :: 0 <= i < |dirs| ==> CleanName(dirs[i])
    ensures var path := Join(dirs + [base], [SLASH]); path != [] && path[0] != SLASH
  {
    var first := (dirs + [base])[0];
    assert CleanName(first);
    hide Join;
    JoinFirst(dirs + [base], [SLASH]);
  }

  lemma NamesOfText(dir: Text, base: Text, count: int)
    requires SLASH !in base && (dir == [] || dir[|dir| - 1] == SLASH)
    requires dir + base != [] && (dir + base)[0] != SLASH
    ensures var uri := [SLASH] + (dir + base);
            && FileName(WithStripComponents(PreserveRequestFile, count), uri) == base
            && FileName(Mode(PreserveRequestPath), uri) == dir + base
            && FileName(WithStripComponents(PreserveRequestPath, count), uri) == Stripped(dir + base, count)
  {
    hide Stripped, SplitPath;
    var path := dir + base;
    var uri := [SLASH] + path;
    assert uri[1..] == path && TrimSlashes(path) == path;
    assert uri == ([SLASH] + dir) + base;
    SplitPathAt([SLASH] + dir, base);
  }

  /** For the URI of a clean path: the modes, with any count of components to strip. */
  lemma NamesOfPath(dirs: seq<Text>, base: Text, count: int)
    requires CleanName(base) && forall i :: 0 <= i < |dirs| ==> CleanName(dirs[i])
    ensures var uri := [SLASH] + Join(dirs + [base], [SLASH]);
            && FileName(WithStripComponents(PreserveRequestFile, count), uri) == base
            && FileName(Mode(PreserveRequestPath), uri) == Join(dirs + [base], [SLASH])
            && FileName(WithStripComponents(PreserveRequestPath, count), uri) ==
               Join(dirs[|dirs| - Kept(|dirs|, count)..] + [base], [SLASH])
  {
    hide Join, DirText, Stripped, FileName, WithStripComponents, Kept;
    StrippedKeepsSuffix(dirs, base, count);
    DirTextAndBase(dirs, base);
    PathStart(dirs, base);
    NamesOfText(DirText(dirs), base, count);
  }

  lemma JoinKept(dirs: seq<Text>, base: Text, count: int)
    requires count != 0 && CleanName(base) && forall i :: 0 <= i < |dirs| ==> CleanName(dirs[i])
    ensures JoinPath(KeptDirs(dirs + [[]], count) + [base]) ==
            Join(dirs[|dirs| - Kept(|dirs|, count)..] + [base], [SLASH])
  {
    var suffix, kept := dirs[|dirs| - Kept(|dirs|, count)..], KeptDirs(dirs + [[]], count);
    KeptIsSuffix(dirs, count);
    NonEmptyOfClean(suffix + [base]);
    hide *;
    if kept != [] {
      NonEmptySkips(suffix, [base]);
    }
    assert JoinPath(kept + [base]) == Join(suffix + [base], [SLASH]) by {
      JoinPathIs(kept + [base], suffix + [base]);
    }
  }

  lemma JoinPathIs(elements: seq<Text>, clean: seq<Text>)
    requires NonEmpty(elements) == clean
    ensures JoinPath(elements) == Join(clean, [SLASH])
  {
  }

  lemma KeptIsSuffix(dirs: seq<Text>, count: int)
    requires count != 0
    ensures var suffix, kept := dirs[|dirs| - Kept(|dirs|, count)..], KeptDirs(dirs + [[]], count);
            if kept == [] then suffix == [] else kept == suffix + [[]]
  {
    var n, all := |dirs|, dirs + [[]];
    if 0 < count <= n {
      assert all[count..] == dirs[count..] + [[]];
    } else if -n - 1 < count < 0 {
      assert (n + 1 + count) % (n + 1) == n + 1 + count;
      assert all[n + 1 + count..] == dirs[n + 1 + count..] + [[]];
    } else if count == -n - 1 {
      assert (n + 1 + count) % (n + 1) == 0;
      assert all[0..] == dirs[0..] + [[]];
    }
  }

  // ---------- numbered downloads ----------

  /** The variable index.suffix. */
  function Suffix(index: nat): Text {
    if index == 0 then [] else [DOT] + Digits(index)
  }

  function NameAt(name: Text, index: nat): Text {
    name + Suffix(index)
  }

  /** The names opened by the first n calls; a call that would open an empty name fails. */
  function Opened(name: Text, n: nat): seq<Text> {
    if n == 0 then []
    else Opened(name, n - 1) + if NameAt(name, n - 1) == [] then [] else [NameAt(name, n - 1)]
  }

  /** The downloader for a name without expressions, to which the suffix was appended. */
  class ExprAdapter {
    const name: Text
    var index: int
    ghost var history: seq<Text>

    ghost predicate Valid()
      reads this
    {
      index >= -1 && history == Opened(name, index + 1)
    }

    constructor (name: Text)
      ensures Valid() && this.name == name && index == -1 && history == []
    {
      this.name := name;
      index, history := -1, [];
    }

    function ExpandSuffix(): Text
      requires index >= 0
      reads this
    {
      if index == 0 then [] else [DOT] + Digits(index)
    }

    method OpenDownload() returns (fn: Option<Text>)
      requires Valid()
      modifies this
      ensures Valid() && index == old(index) + 1
      ensures fn == if NameAt(name, index) == [] then None else Some(NameAt(name, index))
      ensures history == old(history) + if fn.None? then [] else [fn.value]
      ensures fn.Some? ==> fn.value !in old(history)
    {
      index := index + 1;
      var expanded := name + ExpandSuffix();
      OpenedAreDistinct(name, index + 1);
      OpenedNames(name, index);
      if expanded == [] {
        assert history + [] == history;
        return None;
      }
      history := history + [expanded];
      if expanded in old(history) {
        var i :| 0 <= i < index && expanded == NameAt(name, i);
        NamesDiffer(name, i, index);
      }
      return Some(expanded);
    }
  }

  lemma NamesDiffer(name: Text, i: nat, j: nat)
    ensures NameAt(name, i) == NameAt(name, j) <==> i == j
  {
    assert NameAt(name, i)[|name|..] == Suffix(i) && NameAt(name, j)[|name|..] == Suffix(j);
    ValueOfDigits(i);
    ValueOfDigits(j);
    if i > 0 { assert Suffix(i)[1..] == Digits(i); }
    if j > 0 { assert Suffix(j)[1..] == Digits(j); }
  }

  lemma {:induction false} OpenedNames(name: Text, n: nat)
    ensures forall s :: s in Opened(name, n) ==> exists i: nat :: i < n && s == NameAt(name, i)
    ensures name != [] ==> |Opened(name, n)| == n
  {
    if n > 0 {
      OpenedNames(name, n - 1);
      forall s | s in Opened(name, n)
        ensures exists i: nat :: i < n && s == NameAt(name, i)
      {
        if s !in Opened(name, n - 1) { assert s == NameAt(name, n - 1); }
      }
    }
  }

  predicate Distinct(names: seq<Text>) {
    forall i, j :: 0 <= i < j < |names| ==> names[i] != names[j]
  }

  /** Any number of downloads open pairwise different files; for a non-empty name none
      fails and the first one is the name itself. */
  lemma {:induction false} OpenedAreDistinct(name: Text, n: nat)
    ensures var names := Opened(name, n);
            && Distinct(names)
            && (name != [] ==> |names| == n && (n > 0 ==> names[0] == name))
  {
    if n > 0 {
      OpenedAreDistinct(name, n - 1);
      OpenedNames(name, n - 1);
      var names, before := Opened(name, n), Opened(name, n - 1);
      forall i, j | 0 <= i < j < |names|
        ensures names[i] != names[j]
      {
        if j == |before| {
          assert names[i] == before[i] && names[i] in before && names[j] == NameAt(name, n - 1);
          var k: nat :| k < n - 1 && names[i] == NameAt(name, k);
          NamesDiffer(name, k, n - 1);
          assert names[i] != names[j];
        } else {
          assert j < |before| && names[i] == before[i] && names[j] == before[j];
        }
      }
      assert NameAt(name, 0) == name;
    }
  }

  /** Behind the first, a name has a dot and the decimal digits of its index. */
  lemma NumberedNames(name: Text, i: nat)
    ensures NameAt(name, 0) == name
    ensures i > 0 ==>
              var digits := Digits(i);
              && NameAt(name, i) == name + [0x2E] + digits
              && digits != [] && 0x31 <= digits[0] <= 0x39
              && (forall k :: 0 <= k < |digits| ==> 0x30 <= digits[k] <= 0x39)
              && PositionalValue(digits) == i
  {
    if i > 0 {
      DigitsPositional(i);
      hide PositionalValue, TrimSlashes, SplitPath;
      assert forall k :: 0 <= k < |Digits(i)| ==> Digits(i)[k] in Digits(i);
      hide Digits;
      assert name + ([DOT] + Digits(i)) == name + [0x2E] + Digits(i);
    }
  }

  function PositionalValue(t: Text): int {
    if t == [] then 0 else 10 * PositionalValue(t[..|t| - 1]) + (t[|t| - 1] as int - 0x30)
  }

  lemma {:induction false} DigitsPositional(n: nat)
    ensures PositionalValue(Digits(n)) == n
    ensures n > 0 ==> 0x31 <= Digits(n)[0] <= 0x39
  {
    if n < 10 {
      assert PositionalValue([]) == 0;
      assert Digits(n)[..0] == [];
    } else {
      DigitsPositional(n / 10);
      assert Digits(n)[..|Digits(n)| - 1] == Digits(n / 10);
    }
  }

  /** All leading slashes are trimmed, and no other. */
  lemma {:induction false} TrimmedSlashes(n: nat, s: Text)
    requires s == [] || s[0] != 0x2F
    ensures TrimSlashes(Repeat(0x2F, n) + s) == s
  {
    var all := Repeat(0x2F, n) + s;
    if n > 0 {
      TrimmedSlashes(n - 1, s);
      assert all[1..] == Repeat(0x2F, n - 1) + s;
    } else {
      assert all == s;
    }
  }
}
