/** The shell's input line: completion of the word before the caret, and editing as a zipper of
    the text on both sides of the caret. */
module LineEditor {
  import opened Ascii
  import opened Wrappers

  const SLASH: byte := 47
  const TAB: int := 9
  const KEY_LEFT: int := 0x104
  const KEY_RIGHT: int := 0x105
  const KEY_BACKSPACE: int := 0x107
  const KEY_STAB: int := 0x154
  const KEY_ENTER: int := 0x157

  type text = seq<byte>

  /** The directories as the shell finds them: what opening one lists, and whether a path opens
      as a directory. */
  datatype Disk = Disk(cwd: text, list: text -> Option<seq<text>>, isDirectory: text -> bool)

  // ----- Completion

  /** The position of the last occurrence of c, if any. */
  function LastOf(s: text, c: byte): (p: Option<nat>)
    ensures p.Some? ==> p.value < |s| && s[p.value] == c && c !in s[p.value + 1..]
    ensures p.None? <==> c !in s
  {
    if s == [] then None
    else if s[|s| - 1] == c then Some(|s| - 1)
    else LastOf(s[..|s| - 1], c)
  }

  /** Where to look, what to put in front of a found name, and how the name must begin. */
  datatype Search = Search(directory: text, prepend: text, beginning: text)

  function SearchFor(disk: Disk, word: text): Search {
    match LastOf(word, SLASH)
    case None => Search(disk.cwd, [], word)
    case Some(last) =>
      if word[0] == SLASH then Search(word[..last], word[..last] + [SLASH], word[last + 1..])
      else Search(disk.cwd + [SLASH] + word[..last], word[..last] + [SLASH], word[last + 1..])
  }

  function Completed(disk: Disk, s: Search, entry: text): text {
    s.prepend + entry + if disk.isDirectory(s.directory + [SLASH] + entry) then [SLASH] else []
  }

  function CompletionsOf(disk: Disk, s: Search, entries: seq<text>): (r: seq<text>) {
    if entries == [] then []
    else
      CompletionsOf(disk, s, entries[..|entries| - 1])
        + var entry := entries[|entries| - 1];
          if s.beginning <= entry then [Completed(disk, s, entry)] else []
  }

  function Completions(disk: Disk, word: text): (r: seq<text>) {
    var s := SearchFor(disk, word);
    match disk.list(s.directory)
    case None => []
    case Some(entries) => CompletionsOf(disk, s, entries)
  }

  /** In all three slash cases the word is what is put in front and how the name must begin. */
  lemma SearchDividesWord(disk: Disk, word: text)
    ensures SearchFor(disk, word).prepend + SearchFor(disk, word).beginning == word
  {
    if last: nat :| LastOf(word, SLASH) == Some(last) {
      assert word == word[..last] + [word[last]] + word[last + 1..];
    }
  }

  lemma CompletedExtends(disk: Disk, word: text, entry: text)
    requires SearchFor(disk, word).beginning <= entry
    ensures word <= Completed(disk, SearchFor(disk, word), entry)
  {
    SearchDividesWord(disk, word);
  }

  /** The completions are exactly the completed names of the listed entries that begin as
      required. */
  lemma {:induction false} CompletionsIff(disk: Disk, s: Search, entries: seq<text>, c: text)
    ensures c in CompletionsOf(disk, s, entries)
       <==> exists i :: 0 <= i < |entries| && s.beginning <= entries[i] && c == Completed(disk, s, entries[i])
  {
    hide Completed;
    if entries != [] {
      var n := |entries| - 1;
      CompletionsIff(disk, s, entries[..n], c);
      var rest := CompletionsOf(disk, s, entries[..n]);
      var own := if s.beginning <= entries[n] then [Completed(disk, s, entries[n])] else [];
      assert c in rest + own <==> c in rest || c in own;
    }
  }

  /** Completion only extends: every completion begins with the typed word. */
  lemma CompletionsExtend(disk: Disk, word: text, c: text)
    requires c in Completions(disk, word)
    ensures word <= c
  {
    hide Completed;
    var s := SearchFor(disk, word);
    var entries := disk.list(s.directory).value;
    CompletionsIff(disk, s, entries, c);
    var i :| 0 <= i < |entries| && s.beginning <= entries[i] && c == Completed(disk, s, entries[i]);
    CompletedExtends(disk, word, entries[i]);
  }

  method Autocomplete(disk: Disk, word: text) returns (completions: seq<text>)
    ensures completions == Completions(disk, word)
  {
    hide Completed;
    var startDir := disk.cwd;
    var prepend: text := [];
    var toComplete := word;
    var lastSlash := LastOf(word, SLASH);
    if lastSlash.Some? && word[0] == SLASH {
      startDir := word[..lastSlash.value];
      prepend := startDir + [SLASH];
      toComplete := word[lastSlash.value + 1..];
    } else if lastSlash.Some? {
      startDir := startDir + [SLASH] + word[..lastSlash.value];
      prepend := word[..lastSlash.value] + [SLASH];
      toComplete := word[lastSlash.value + 1..];
    }
    var s := Search(startDir, prepend, toComplete);
    assert s == SearchFor(disk, word);
    completions := [];
    var dir := disk.list(startDir);
    if dir.Some? {
      for i := 0 to |dir.value|
        invariant completions == CompletionsOf(disk, s, dir.value[..i])
      {
        assert dir.value[..i + 1][..i] == dir.value[..i];
        if toComplete <= dir.value[i] {
          completions := completions + [Completed(disk, s, dir.value[i])];
        }
      }
      assert dir.value[..|dir.value|] == dir.value;
    }
  }

  // ----- Editing

  datatype Zipper = Zipper(left: text, right: text)

  const EMPTY: Zipper := Zipper([], [])

  /** The part behind the last blank. */
  function LastWord(left: text): (w: text)
    ensures |w| <= |left| && left[|left| - |w|..] == w && SPACE !in w
    ensures |w| < |left| ==> left[|left| - |w| - 1] == SPACE
  {
    match LastOf(left, SPACE)
    case None => left
    case Some(p) => left[p + 1..]
  }

  function Tabbed(disk: Disk, z: Zipper): Zipper {
    var word := LastWord(z.left);
    var c := Completions(disk, word);
    if |c| == 1 then z.(left := z.left[..|z.left| - |word|] + c[0]) else z
  }

  /** One key other than enter. */
  function Edit(disk: Disk, z: Zipper, key: int): Zipper {
    if key == KEY_BACKSPACE then (if z.left == [] then z else z.(left := z.left[..|z.left| - 1]))
    else if key == TAB || key == KEY_STAB then Tabbed(disk, z)
    else if key == KEY_LEFT then
      (if z.left == [] then z else Zipper(z.left[..|z.left| - 1], [z.left[|z.left| - 1]] + z.right))
    else if key == KEY_RIGHT then
      (if z.right == [] then z else Zipper(z.left + [z.right[0]], z.right[1..]))
    else if 0 <= key < 0x100 then z.(left := z.left + [key])
    else z
  }

  function EditAll(disk: Disk, keys: seq<int>): Zipper {
    if keys == [] then EMPTY else Edit(disk, EditAll(disk, keys[..|keys| - 1]), keys[|keys| - 1])
  }

  /** How many of the keys are edited before the line ends. */
  function Edited(keys: seq<int>): (n: nat)
    ensures n <= |keys|
    ensures forall i :: 0 <= i < n ==> keys[i] != KEY_ENTER && keys[i] != -1
    ensures n < |keys| ==> keys[n] == KEY_ENTER || keys[n] == -1
  {
    if keys == [] || keys[0] == KEY_ENTER || keys[0] == -1 then 0 else 1 + Edited(keys[1..])
  }

  /** Reads a line from the keys as `getChar` returns them; behind the last one it returns -1.
      The line is the zipper after all keys before enter, with the caret between its halves. */
  method ReadInputLine(disk: Disk, keys: seq<int>) returns (ok: bool, line: text, caret: nat)
    ensures var z := EditAll(disk, keys[..Edited(keys)]);
      line == z.left + z.right && caret == |z.left| && caret <= |line|
    ensures ok <==> Edited(keys) < |keys| && keys[Edited(keys)] == KEY_ENTER
  {
    hide Edit;
    line := [];
    caret := 0;
    var taken := 0;
    ghost var z := EMPTY;
    while true
      invariant 0 <= taken <= Edited(keys)
      invariant z == EditAll(disk, keys[..taken])
      invariant line == z.left + z.right && caret == |z.left|
      decreases Edited(keys) - taken
    {
      var c := if taken < |keys| then keys[taken] else -1;
      if c == -1 {
        EndsHere(keys, taken);
        return false, line, caret;
      }
      if c == KEY_ENTER {
        EndsHere(keys, taken);
        break;
      }
      GoesOn(keys, taken);
      assert keys[..taken + 1][..taken] == keys[..taken];
      line, caret := HandleKey(disk, line, caret, c, z);
      z := Edit(disk, z, c);
      taken := taken + 1;
    }
    ok := true;
  }

  /** One key other than enter. */
  method HandleKey(disk: Disk, line: text, caret: nat, c: int, ghost z: Zipper) returns (after: text, next: nat)
    requires line == z.left + z.right && caret == |z.left|
    ensures after == Edit(disk, z, c).left + Edit(disk, z, c).right && next == |Edit(disk, z, c).left|
  {
    hide Tabbed;
    after, next := line, caret;
    assert line[..caret] == z.left && line[caret..] == z.right;
    if c == KEY_BACKSPACE {
      if |line| > 0 && caret > 0 {
        var afterCaret := line[caret..];
        after := line[..caret - 1] + afterCaret;
        next := caret - 1;
      }
    } else if c == TAB || c == KEY_STAB {
      after, next := CompleteAtCaret(disk, line, caret, z);
    } else if c == KEY_LEFT {
      if caret > 0 {
        next := caret - 1;
      }
    } else if c == KEY_RIGHT {
      if caret < |line| {
        next := caret + 1;
      }
    } else if 0 <= c < 0x100 {
      var afterCaret := line[caret..];
      after := line[..caret] + [c] + afterCaret;
      next := caret + 1;
    }
  }

  lemma TabbedCases(disk: Disk, z: Zipper)
    ensures var word := LastWord(z.left);
      var c := Completions(disk, word);
      Tabbed(disk, z) == if |c| == 1 then Zipper(z.left[..|z.left| - |word|] + c[0], z.right) else z
  {
  }

  /** The completion branch. */
  method CompleteAtCaret(disk: Disk, line: text, caret: nat, ghost z: Zipper) returns (after: text, next: nat)
    requires line == z.left + z.right && caret == |z.left|
    ensures after == Tabbed(disk, z).left + Tabbed(disk, z).right && next == |Tabbed(disk, z).left|
  {
    hide Completions;
    hide LastOf;
    hide Tabbed;
    TabbedCases(disk, z);
    var beforeCaret := line[..caret];
    var afterCaret := line[caret..];
    assert beforeCaret == z.left && afterCaret == z.right;
    var toComplete := beforeCaret;
    var space := LastOf(toComplete, SPACE);
    if space.Some? {
      toComplete := toComplete[space.value + 1..];
    }
    assert toComplete == LastWord(z.left);
    hide LastWord;
    after, next := line, caret;
    var completions := Autocomplete(disk, toComplete);
    if |completions| > 1 {
    } else if |completions| > 0 {
      var completion := completions[0];
      next := next - |toComplete|;
      assert line[..next] == z.left[..next];
      after := line[..next] + completion + afterCaret;
      next := next + |completion|;
    }
  }

  lemma {:induction false} EndsHere(keys: seq<int>, taken: nat)
    requires taken <= Edited(keys)
    requires taken == |keys| || keys[taken] == KEY_ENTER || keys[taken] == -1
    ensures taken == Edited(keys)
  {
  }

  lemma {:induction false} GoesOn(keys: seq<int>, taken: nat)
    requires taken <= Edited(keys) && taken < |keys| && keys[taken] != KEY_ENTER && keys[taken] != -1
    ensures taken < Edited(keys)
  {
  }

  // ----- What the keys promise

  /** Tab changes only what is left of the caret, and only by extending its last word. */
  lemma TabOnlyExtends(disk: Disk, z: Zipper)
    ensures Tabbed(disk, z).right == z.right
    ensures z.left <= Tabbed(disk, z).left
  {
    hide Completions;
    hide LastWord;
    var word := LastWord(z.left);
    var c := Completions(disk, word);
    if |c| == 1 {
      CompletionsExtend(disk, word, c[0]);
      LongerEnd(z.left, word, c[0]);
    }
  }

  lemma LongerEnd(s: text, end: text, longer: text)
    requires |end| <= |s| && s[|s| - |end|..] == end && end <= longer
    ensures s <= s[..|s| - |end|] + longer
  {
    assert s == s[..|s| - |end|] + end;
  }

  /** Backspace undoes typing; right undoes left wherever left moves. */
  lemma KeysUndo(disk: Disk, z: Zipper, c: byte)
    requires c != TAB
    ensures Edit(disk, Edit(disk, z, c), KEY_BACKSPACE) == z
    ensures Edit(disk, Edit(disk, z, KEY_LEFT), KEY_RIGHT) == z <==> z.left != [] || z.right == []
  {
    hide Tabbed;
    if z.left != [] {
      assert z.left[..|z.left| - 1] + [z.left[|z.left| - 1]] == z.left;
    } else if z.right != [] {
      assert |Edit(disk, Edit(disk, z, KEY_LEFT), KEY_RIGHT).left| == 1;
    }
  }

  lemma {:induction false} SameFromThere(disk: Disk, a: seq<int>, b: seq<int>, rest: seq<int>)
    requires EditAll(disk, a) == EditAll(disk, b)
    ensures EditAll(disk, a + rest) == EditAll(disk, b + rest)
  {
    hide Edit;
    if rest == [] {
      assert a + rest == a && b + rest == b;
    } else {
      var n := |rest| - 1;
      assert (a + rest)[..|a| + n] == a + rest[..n];
      assert (b + rest)[..|b| + n] == b + rest[..n];
      SameFromThere(disk, a, b, rest[..n]);
    }
  }

  function Backspaces(n: nat): (keys: seq<int>)
    ensures |keys| == n
  {
    seq(n, _ => KEY_BACKSPACE)
  }

  lemma TypedErased(disk: Disk, keys: seq<int>, c: byte)
    requires c != TAB
    ensures EditAll(disk, keys + [c, KEY_BACKSPACE]) == EditAll(disk, keys)
  {
    hide Edit;
    assert (keys + [c])[..|keys|] == keys;
    assert (keys + [c, KEY_BACKSPACE])[..|keys| + 1] == keys + [c];
    KeysUndo(disk, EditAll(disk, keys), c);
  }

  lemma InnermostPair(keys: seq<int>, typed: seq<byte>)
    requires typed != []
    ensures keys + typed + Backspaces(|typed|)
         == (keys + typed[..|typed| - 1]) + [typed[|typed| - 1], KEY_BACKSPACE] + Backspaces(|typed| - 1)
  {
  }

  /** Wherever the caret is, typing a text and erasing as many characters leaves everything as it
      was. */
  lemma {:induction false} TypedThenErased(disk: Disk, keys: seq<int>, typed: seq<byte>)
    requires TAB !in typed
    ensures EditAll(disk, keys + typed + Backspaces(|typed|)) == EditAll(disk, keys)
  {
    hide EditAll;
    hide Backspaces;
    if typed == [] {
      assert keys + typed + Backspaces(0) == keys;
    } else {
      var n := |typed| - 1;
      var front := keys + typed[..n];
      TypedThenErased(disk, keys, typed[..n]);
      TypedErased(disk, front, typed[n]);
      SameFromThere(disk, front + [typed[n], KEY_BACKSPACE], front, Backspaces(n));
      InnermostPair(keys, typed);
    }
  }

  /** Typed characters appear in front of the caret, in order. */
  lemma {:induction false} TypedAppears(disk: Disk, keys: seq<int>, typed: seq<byte>)
    requires TAB !in typed
    ensures EditAll(disk, keys + typed) == Zipper(EditAll(disk, keys).left + typed, EditAll(disk, keys).right)
  {
    hide Tabbed;
    if typed == [] {
      assert keys + typed == keys;
    } else {
      var n := |typed| - 1;
      assert typed[n] in typed;
      assert (keys + typed)[..|keys| + n] == keys + typed[..n];
      TypedAppears(disk, keys, typed[..n]);
      assert EditAll(disk, keys).left + typed == (EditAll(disk, keys).left + typed[..n]) + [typed[n]];
    }
  }

  lemma {:induction false} EditedUpToEnter(typed: seq<byte>)
    ensures Edited(typed + [KEY_ENTER]) == |typed|
  {
    if typed != [] {
      assert (typed + [KEY_ENTER])[1..] == typed[1..] + [KEY_ENTER];
      EditedUpToEnter(typed[1..]);
    }
  }

  /** A line typed and entered is the line read. */
  method TypedLine(disk: Disk, typed: seq<byte>) returns (ok: bool, line: text, caret: nat)
    requires TAB !in typed
    ensures ok && line == typed && caret == |typed|
  {
    EditedUpToEnter(typed);
    TypedAppears(disk, [], typed);
    assert [] + typed == typed;
    assert (typed + [KEY_ENTER])[..|typed|] == typed;
    ok, line, caret := ReadInputLine(disk, typed + [KEY_ENTER]);
    assert typed + [] == typed;
  }

  // ----- What is completed, and to what

  lemma {:induction false} LastOfBehind(front: text, c: byte, tail: text)
    requires c !in tail
    ensures LastOf(front + ([c] + tail), c) == Some(|front|)
  {
    var s := front + ([c] + tail);
    if tail == [] {
      assert s == front + [c];
    } else {
      var n := |tail| - 1;
      assert tail[n] in tail;
      assert s[..|s| - 1] == front + ([c] + tail[..n]);
      LastOfBehind(front, c, tail[..n]);
    }
  }

  /** The word completed is what stands between the last blank and the caret. */
  lemma WordBehindBlank(front: text, word: text)
    requires SPACE !in word
    ensures LastWord(word) == word
    ensures LastWord(front + ([SPACE] + word)) == word
  {
    LastOfBehind(front, SPACE, word);
    assert (front + ([SPACE] + word))[|front| + 1..] == word;
  }

  /** A word without a slash is looked for in the current directory. */
  lemma SearchOfName(disk: Disk, name: text)
    requires SLASH !in name
    ensures SearchFor(disk, name) == Search(disk.cwd, [], name)
  {
  }

  /** A word with slashes names the directory up to the last one: from the root if it begins
      with a slash, and from the current directory if not. */
  lemma SearchOfPath(disk: Disk, dir: text, name: text)
    requires SLASH !in name
    ensures SearchFor(disk, dir + ([SLASH] + name))
         == Search(if dir == [] || dir[0] == SLASH then dir else disk.cwd + [SLASH] + dir, dir + [SLASH], name)
  {
    var word := dir + ([SLASH] + name);
    LastOfBehind(dir, SLASH, name);
    assert word[..|dir|] == dir && word[|dir| + 1..] == name;
  }

  lemma {:induction false} OnlyOneBegins(disk: Disk, s: Search, entries: seq<text>, k: nat)
    requires k < |entries| && s.beginning <= entries[k]
    requires forall i :: 0 <= i < |entries| && i != k ==> !(s.beginning <= entries[i])
    ensures CompletionsOf(disk, s, entries) == [Completed(disk, s, entries[k])]
  {
    hide Completed;
    var n := |entries| - 1;
    if k == n {
      NoneBegins(disk, s, entries[..n]);
    } else {
      assert entries[..n][k] == entries[k];
      OnlyOneBegins(disk, s, entries[..n], k);
    }
  }

  lemma {:induction false} NoneBegins(disk: Disk, s: Search, entries: seq<text>)
    requires forall i :: 0 <= i < |entries| ==> !(s.beginning <= entries[i])
    ensures CompletionsOf(disk, s, entries) == []
  {
    if entries != [] {
      NoneBegins(disk, s, entries[..|entries| - 1]);
    }
  }

  lemma {:induction false} TwoBegin(disk: Disk, s: Search, entries: seq<text>, j: nat, k: nat)
    requires j < k < |entries| && s.beginning <= entries[j] && s.beginning <= entries[k]
    ensures |CompletionsOf(disk, s, entries)| >= 2
  {
    var n := |entries| - 1;
    if k < n {
      assert entries[..n][j] == entries[j] && entries[..n][k] == entries[k];
      TwoBegin(disk, s, entries[..n], j, k);
    } else {
      assert entries[..n][j] == entries[j];
      CompletionsIff(disk, s, entries[..n], Completed(disk, s, entries[j]));
    }
  }

  /** Entry k is the only one that begins so. */
  predicate OnlyOne(beginning: text, entries: seq<text>, k: nat) {
    && k < |entries| && beginning <= entries[k]
    && forall i :: 0 <= i < |entries| && i != k ==> !(beginning <= entries[i])
  }

  lemma CompletionsThere(disk: Disk, word: text, entries: seq<text>, k: nat)
    requires var s := SearchFor(disk, word);
      disk.list(s.directory) == Some(entries) && k < |entries| && s.beginning <= entries[k]
    ensures var s := SearchFor(disk, word);
      if OnlyOne(s.beginning, entries, k) then Completions(disk, word) == [Completed(disk, s, entries[k])]
      else |Completions(disk, word)| >= 2
  {
    hide CompletionsOf;
    hide SearchFor;
    hide Completed;
    var s := SearchFor(disk, word);
    if OnlyOne(s.beginning, entries, k) {
      OnlyOneBegins(disk, s, entries, k);
    } else {
      var i :| 0 <= i < |entries| && i != k && s.beginning <= entries[i];
      TwoBegin(disk, s, entries, if i < k then i else k, if i < k then k else i);
    }
  }

  /** Tab completes a word exactly when a single entry of the directory it names begins like its
      last part: that part is replaced by the entry, with a slash behind a directory. With several
      such entries nothing changes. */
  lemma TabCompletes(disk: Disk, z: Zipper, entries: seq<text>, k: nat)
    requires var s := SearchFor(disk, LastWord(z.left));
      disk.list(s.directory) == Some(entries) && k < |entries| && s.beginning <= entries[k]
    ensures var s := SearchFor(disk, LastWord(z.left));
      var path := s.directory + [SLASH] + entries[k];
      |s.beginning| <= |z.left|
      && Tabbed(disk, z)
        == if OnlyOne(s.beginning, entries, k)
           then z.(left := z.left[..|z.left| - |s.beginning|] + entries[k] + if disk.isDirectory(path) then [SLASH] else [])
           else z
  {
    hide Completions;
    hide SearchFor;
    hide Tabbed;
    hide OnlyOne;
    var word := LastWord(z.left);
    var s := SearchFor(disk, word);
    SearchDividesWord(disk, word);
    TabbedCases(disk, z);
    CompletionsThere(disk, word, entries, k);
    hide LastWord;
    var slash := if disk.isDirectory(s.directory + [SLASH] + entries[k]) then [SLASH] else [];
    ReplacesEnd(z.left, word, s.prepend, s.beginning, entries[k], slash);
  }

  lemma ReplacesEnd(left: text, word: text, prepend: text, beginning: text, entry: text, slash: text)
    requires |word| <= |left| && left[|left| - |word|..] == word && prepend + beginning == word
    ensures left[..|left| - |word|] + (prepend + entry + slash) == left[..|left| - |beginning|] + entry + slash
  {
    assert left == left[..|left| - |word|] + (prepend + beginning);
    assert left[..|left| - |beginning|] == left[..|left| - |word|] + prepend;
  }

  /** And with no entry that begins so, or no such directory, nothing changes either. */
  lemma TabFindsNothing(disk: Disk, z: Zipper)
    requires var s := SearchFor(disk, LastWord(z.left));
      var listed := disk.list(s.directory);
      listed.Some? ==> forall i :: 0 <= i < |listed.value| ==> !(s.beginning <= listed.value[i])
    ensures Tabbed(disk, z) == z
  {
    var s := SearchFor(disk, LastWord(z.left));
    if disk.list(s.directory).Some? {
      NoneBegins(disk, s, disk.list(s.directory).value);
    }
  }
}
