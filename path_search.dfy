/**
 * Path search (`find_in_path`): walk the ':'-separated entries of PATH the way
 * `strtok` hands them out and return the first `entry + "/" + command` that
 * exists and is executable by its owner. The `stat` call and the `S_IXUSR` test
 * are replaced by a set of the path names that pass them.
 */
module PathSearch {
  import opened Opt
  import opened CString

  const Delim: char := ':'

  /* ---------- Splitting PATH ---------- */

  /** The plain split of `s` at every ':', empty fields included. */
  function Fields(s: string): (r: seq<string>)
    ensures |r| >= 1
    ensures forall i :: 0 <= i < |r| ==> Delim !in r[i]
    decreases |s|
  {
    if Delim !in s then [s]
    else
      var i := IndexOf(s, Delim);
      [s[..i]] + Fields(s[i + 1..])
  }

  /** Glue fields back together with ':' between them. */
  function Join(fs: seq<string>): string
    requires |fs| >= 1
  {
    if |fs| == 1 then fs[0] else fs[0] + [Delim] + Join(fs[1..])
  }

  /** Joining the fields of `s` gives `s` back: the split loses nothing. */
  lemma {:induction false} JoinFields(s: string)
    ensures Join(Fields(s)) == s
    decreases |s|
  {
    if Delim in s {
      var i := IndexOf(s, Delim);
      JoinFields(s[i + 1..]);
      assert s == s[..i] + [Delim] + s[i + 1..];
    }
  }

  /** The fields that are not empty, in order. */
  function NonEmpty(fs: seq<string>): (r: seq<string>)
    ensures forall i :: 0 <= i < |r| ==> r[i] != []
  {
    if fs == [] then []
    else if fs[0] == [] then NonEmpty(fs[1..])
    else [fs[0]] + NonEmpty(fs[1..])
  }

  /** Length of the field that starts `s`: up to the first ':' or the end. */
  function FieldEnd(s: string): (n: nat)
    ensures n <= |s| && Delim !in s[..n]
    ensures n < |s| ==> s[n] == Delim
  {
    if Delim in s then IndexOf(s, Delim) else |s|
  }

  /**
   * The successive results of `strtok(s, ":")`, `strtok(NULL, ":")`, ...:
   * a run of delimiters is skipped, then a token runs to the next ':' or the end.
   */
  function Tokens(s: string): (r: seq<string>)
    ensures forall i :: 0 <= i < |r| ==> r[i] != [] && Delim !in r[i]
    decreases |s|
  {
    if s == [] then []
    else if s[0] == Delim then Tokens(s[1..])
    else
      var n := FieldEnd(s);
      [s[..n]] + Tokens(s[n..])
  }

  /** `strtok` yields exactly the non-empty fields: empty entries are dropped. */
  lemma {:induction false} TokensAreNonEmptyFields(s: string)
    ensures Tokens(s) == NonEmpty(Fields(s))
    decreases |s|
  {
    if s == [] {
    } else if s[0] == Delim {
      TokensAreNonEmptyFields(s[1..]);
      assert IndexOf(s, Delim) == 0;
      assert Fields(s) == [[]] + Fields(s[1..]);
    } else {
      var n := FieldEnd(s);
      if n == |s| {
        assert s[..n] == s;
        assert Fields(s) == [s];
        assert NonEmpty(Fields(s)) == [s] + NonEmpty([]);
      } else {
        assert IndexOf(s, Delim) == n;
        assert s[n..][0] == Delim && s[n..][1..] == s[n + 1..];
        TokensAreNonEmptyFields(s[n + 1..]);
        assert Fields(s) == [s[..n]] + Fields(s[n + 1..]);
      }
    }
  }

  /** A single ':' between two strings splits their tokens apart and adds none. */
  lemma {:induction false} TokensSplit(a: string, b: string)
    ensures Tokens(a + [Delim] + b) == Tokens(a) + Tokens(b)
    decreases |a|
  {
    var s := a + [Delim] + b;
    if a == [] {
      assert s[1..] == b;
    } else if a[0] == Delim {
      assert s[1..] == a[1..] + [Delim] + b;
      TokensSplit(a[1..], b);
    } else {
      var n := FieldEnd(a);
      if n < |a| {
        assert s[..n] == a[..n];
        assert FieldEnd(s) == n by {
          assert s[n] == Delim && Delim !in s[..n];
          if Delim in s { assert IndexOf(s, Delim) <= n; }
        }
        assert s[n..] == a[n..] + [Delim] + b;
        TokensSplit(a[n..], b);
      } else {
        assert s[..n] == a && a[..n] == a;
        assert FieldEnd(s) == n by {
          assert s[n] == Delim && Delim !in s[..n];
          assert IndexOf(s, Delim) <= n;
        }
        assert s[n..] == [Delim] + b && s[n..][1..] == b;
        assert a[n..] == [];
      }
    }
  }

  /** Doubling a ':' in PATH changes nothing: `strtok` treats the run as one. */
  lemma RepeatedDelimiterCollapses(a: string, b: string)
    ensures Tokens(a + [Delim, Delim] + b) == Tokens(a + [Delim] + b)
  {
    assert a + [Delim, Delim] + b == a + [Delim] + ([Delim] + b);
    TokensSplit(a, [Delim] + b);
    TokensSplit(a, b);
    assert ([Delim] + b)[1..] == b;
  }

  /** A non-empty entry without ':' is one token. */
  lemma SingleToken(e: string)
    requires e != [] && Delim !in e
    ensures Tokens(e) == [e]
  {
    assert FieldEnd(e) == |e| && e[..|e|] == e && e[|e|..] == [];
  }

  /* ---------- strtok's hidden state ---------- */

  /**
   * The state `strtok` keeps between calls: the string it works on and where
   * the next search starts. The source writes a NUL over each delimiter it
   * stops at; that only ends the token, so the model just moves past it.
   */
  class Tokenizer {
    const text: string
    var pos: nat

    ghost predicate Valid()
      reads this
    {
      pos <= |text|
    }

    /** The tokens the following calls will hand out. */
    ghost function Remaining(): seq<string>
      reads this
      requires Valid()
    {
      Tokens(text[pos..])
    }

    /** `strtok(s, ...)`: remember `s` and start at its beginning. */
    constructor (s: string)
      ensures Valid() && text == s && Remaining() == Tokens(s)
    {
      text := s;
      pos := 0;
    }

    /** One call of `strtok`: NULL when no token is left, else the next token. */
    method Next() returns (tok: Option<string>)
      requires Valid()
      modifies this
      ensures Valid()
      ensures old(Remaining()) == [] ==> tok == None && Remaining() == []
      ensures old(Remaining()) != [] ==>
        tok == Some(old(Remaining())[0]) && Remaining() == old(Remaining())[1..]
    {
      ghost var before := Tokens(text[pos..]);
      var i := SkipDelimiters(text, pos);
      if i == |text| {
        assert text[i..] == [];
        pos := i;
        return None;
      }
      var j := TokenEnd(text, i);
      TokenStep(text, i, j);
      tok := Some(text[i..j]);
      pos := if j < |text| then j + 1 else j;
    }
  }

  /** `strspn(s, ":")`: skip the delimiters in front, which yield no token. */
  method SkipDelimiters(text: string, from: nat) returns (i: nat)
    requires from <= |text|
    ensures from <= i <= |text| && (i < |text| ==> text[i] != Delim)
    ensures Tokens(text[i..]) == Tokens(text[from..])
  {
    ghost var tokens := Tokens(text[from..]);
    i := from;
    while i < |text| && text[i] == Delim
      invariant from <= i <= |text|
      invariant Tokens(text[i..]) == tokens
    {
      SkipDelimiter(text, i);
      i := i + 1;
    }
  }

  /** `strpbrk(s, ":")`: the end of the token that starts at `i`. */
  method TokenEnd(text: string, i: nat) returns (j: nat)
    requires i <= |text|
    ensures i <= j <= |text| && Delim !in text[i..j] && (j < |text| ==> text[j] == Delim)
  {
    j := i;
    while j < |text| && text[j] != Delim
      invariant i <= j <= |text|
      invariant Delim !in text[i..j]
    {
      assert text[i..j + 1] == text[i..j] + [text[j]];
      j := j + 1;
    }
  }

  /** A delimiter in front of the remaining text yields no token. */
  lemma SkipDelimiter(text: string, i: nat)
    requires i < |text| && text[i] == Delim
    ensures Tokens(text[i..]) == Tokens(text[i + 1..])
  {
    assert text[i..][1..] == text[i + 1..];
  }

  /**
   * A token starting at `i` runs up to the first delimiter `j` (or the end);
   * the following tokens start after that delimiter.
   */
  lemma TokenStep(text: string, i: nat, j: nat)
    requires i < j <= |text| && text[i] != Delim
    requires Delim !in text[i..j] && (j < |text| ==> text[j] == Delim)
    ensures Tokens(text[i..]) ==
      [text[i..j]] + Tokens(text[if j < |text| then j + 1 else j..])
  {
    var s := text[i..];
    assert s[..j - i] == text[i..j];
    assert FieldEnd(s) == j - i by {
      if j < |text| {
        assert s[j - i] == Delim;
        assert IndexOf(s, Delim) >= j - i;
      }
    }
    assert s[j - i..] == text[j..];
    if j < |text| {
      SkipDelimiter(text, j);
    }
  }

  /* ---------- Building a candidate ---------- */

  /** The file name tried for one PATH entry. */
  function Candidate(entry: string, command: string): string {
    entry + "/" + command
  }

  /**
   * `alloc(entry_len+command_len+2)` followed by `strcpy`, `strcat(.., "/")`
   * and `strcat(.., command)`: every write stays inside the buffer, and the
   * buffer ends up holding exactly the candidate and its terminating NUL.
   */
  method BuildCandidate(entry: string, command: string) returns (fname: array<char>)
    ensures fresh(fname)
    ensures fname.Length == |entry| + |command| + 2
    ensures fname[..] == Candidate(entry, command) + [Nul]
  {
    fname := new char[|entry| + |command| + 2];
    var k := 0;
    while k < |entry|
      invariant 0 <= k <= |entry|
      invariant fname[..k] == entry[..k]
    {
      fname[k] := entry[k];
      k := k + 1;
    }
    fname[|entry|] := '/';
    k := 0;
    while k < |command|
      invariant 0 <= k <= |command|
      invariant fname[..|entry| + 1] == entry + "/"
      invariant fname[|entry| + 1..|entry| + 1 + k] == command[..k]
    {
      fname[|entry| + 1 + k] := command[k];
      k := k + 1;
    }
    fname[fname.Length - 1] := Nul;
    assert fname[..] == fname[..|entry| + 1] + fname[|entry| + 1..fname.Length - 1] + [fname[fname.Length - 1]];
  }

  /* ---------- The search ---------- */

  /** The entries that are actually tried: the first token is used up untested. */
  function Candidates(path: string): (r: seq<string>)
    ensures var f := NonEmpty(Fields(path)); r == if f == [] then [] else f[1..]
  {
    TokensAreNonEmptyFields(path);
    var t := Tokens(path);
    if t == [] then [] else t[1..]
  }

  /** The first entry whose candidate passes the check, as a candidate name. */
  function FirstExecutable(entries: seq<string>, command: string, executables: set<string>): (r: Option<string>)
    ensures r.None? <==>
      forall i :: 0 <= i < |entries| ==> Candidate(entries[i], command) !in executables
    ensures r.Some? ==> exists i :: 0 <= i < |entries| && r.value == Candidate(entries[i], command) &&
                                    r.value in executables &&
                                    forall j :: 0 <= j < i ==> Candidate(entries[j], command) !in executables
  {
    if entries == [] then None
    else if Candidate(entries[0], command) in executables then Some(Candidate(entries[0], command))
    else
      var r := FirstExecutable(entries[1..], command, executables);
      assert forall i :: 1 <= i < |entries| ==> entries[i] == entries[1..][i - 1];
      assert r.Some? ==> exists i :: 0 <= i < |entries| && r.value == Candidate(entries[i], command) &&
                                     r.value in executables &&
                                     forall j :: 0 <= j < i ==> Candidate(entries[j], command) !in executables by {
        if r.Some? {
          var i :| 0 <= i < |entries[1..]| && r.value == Candidate(entries[1..][i], command) &&
            r.value in executables &&
            forall j :: 0 <= j < i ==> Candidate(entries[1..][j], command) !in executables;
          assert r.value == Candidate(entries[i + 1], command);
        }
      }
      r
  }

  /** What `find_in_path` returns for `command` under the given PATH. */
  function SearchPath(path: string, command: string, executables: set<string>): Option<string> {
    FirstExecutable(Candidates(path), command, executables)
  }

  /** `find_in_path`: the `while(1)` loop over `strtok` with its early return. */
  method FindInPath(path: string, command: string, executables: set<string>) returns (r: Option<string>)
    ensures r == SearchPath(path, command, executables)
  {
    var entries := new Tokenizer(path);
    var _ := entries.Next();
    while true
      invariant entries.Valid()
      invariant SearchPath(path, command, executables) ==
                FirstExecutable(entries.Remaining(), command, executables)
      decreases |entries.Remaining()|
    {
      ghost var left := entries.Remaining();
      var entry := entries.Next();
      if entry.None? {
        return None;
      }
      var fname := BuildCandidate(entry.value, command);
      var candidate := fname[..fname.Length - 1];
      FirstExecutableStep(left, command, executables);
      assert candidate == Candidate(entry.value, command);
      if candidate in executables {
        return Some(candidate);
      }
    }
  }

  /** One step of the search: try the first entry, else go on with the rest. */
  lemma FirstExecutableStep(entries: seq<string>, command: string, executables: set<string>)
    requires entries != []
    ensures FirstExecutable(entries, command, executables) ==
      if Candidate(entries[0], command) in executables then Some(Candidate(entries[0], command))
      else FirstExecutable(entries[1..], command, executables)
  {
  }

  /* ---------- Consequences ---------- */

  /** With a single PATH entry, or none, nothing is ever found. */
  lemma OneEntryNeverMatches(path: string, command: string, executables: set<string>)
    requires |Tokens(path)| <= 1
    ensures SearchPath(path, command, executables) == None
  {
  }

  /**
   * `PATH=/a:/b` with `cmd` executable in both directories finds `/b/cmd`:
   * `/a` is the first token and is never tried.
   */
  lemma SecondEntryFound()
    ensures SearchPath("/a:/b", "cmd", {"/a/cmd", "/b/cmd"}) == Some("/b/cmd")
  {
    assert "/a:/b" == "/a" + [Delim] + "/b";
    TokensSplit("/a", "/b");
    SingleToken("/a");
    SingleToken("/b");
    assert Candidates("/a:/b") == ["/b"];
    assert Candidate("/b", "cmd") == "/b/cmd";
  }

  /**
   * The first entry is skipped whatever it holds: if only its candidate is
   * executable, the search fails.
   */
  lemma FirstEntryNeverTested(first: string, rest: string, command: string)
    requires first != [] && Delim !in first
    ensures SearchPath(first + [Delim] + rest, command, {Candidate(first, command)}) == None ||
            Candidate(first, command) in
              (set e | e in Tokens(rest) :: Candidate(e, command))
  {
    TokensSplit(first, rest);
    SingleToken(first);
    assert Candidates(first + [Delim] + rest) == Tokens(rest);
    var r := SearchPath(first + [Delim] + rest, command, {Candidate(first, command)});
    if r.Some? {
      var i :| 0 <= i < |Tokens(rest)| && r.value == Candidate(Tokens(rest)[i], command) &&
        r.value in {Candidate(first, command)};
      assert Tokens(rest)[i] in Tokens(rest);
    }
  }
}
