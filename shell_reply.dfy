/**
 * Shell-reply classification: the line scan of `find_type` and the alias
 * pattern it applies with `get_group`. The shell's standard output is given as
 * its sequence of lines; the one extended regular expression the source
 * compiles, .*is aliased to `(([^' ]*) [^']*)', is matched by hand.
 */
module ShellReply {
  import opened Opt
  import opened CString

  const BuiltinMarker: string := "is a shell builtin"
  const AliasPhrase: string := "is aliased to `"
  const Quote: char := '\''
  const Space: char := ' '
  const Backtick: char := '`'

  /** What the shell said about an alias: `alias_for` is the next name to resolve. */
  datatype AliasMatch = AliasMatch(shell: string, declaration: string, aliasFor: string)

  /** `type_match`: either an alias (builtin_match 0) or a builtin (no alias, builtin_match 1). */
  datatype TypeMatch = TypeMatch(aliasMatch: Option<AliasMatch>, builtinMatch: nat)

  /** Subexpressions 1 (the whole alias body) and 2 (its first word) of a match. */
  datatype Groups = Groups(declaration: string, target: string)

  /**
   * The shape the pattern accepts for one match: the target is the body up to
   * its first space, it has no quote and no space, the body has no quote.
   */
  predicate WellFormedGroups(g: Groups) {
    && |g.target| < |g.declaration|
    && g.declaration[..|g.target|] == g.target
    && g.declaration[|g.target|] == Space
    && Space !in g.target
    && Quote !in g.declaration
  }

  /**
   * A line written as `pre + "is aliased to `" + t + " " + r + "'" + rest`
   * with `t` free of quotes and spaces and `r` free of quotes.
   */
  predicate AliasForm(s: string, pre: string, t: string, r: string, rest: string) {
    && s == pre + AliasPhrase + t + [Space] + r + [Quote] + rest
    && Quote !in t && Space !in t && Quote !in r
  }

  /** The first quote at or after position `k`. */
  function QuoteFrom(s: string, k: nat): (e: Option<nat>)
    ensures e.Some? ==> k <= e.value < |s| && s[e.value] == Quote
    ensures e.Some? ==> forall j :: k <= j < e.value ==> s[j] != Quote
    ensures e.None? ==> forall j :: k <= j < |s| ==> s[j] != Quote
    decreases |s| - k
  {
    if k >= |s| then None
    else if s[k] == Quote then Some(k)
    else QuoteFrom(s, k + 1)
  }

  /**
   * The match whose literal "is aliased to `" starts at `p`: the body runs to
   * the next quote, since neither group may contain one, and must hold a space.
   */
  function AliasAt(s: string, p: nat): (g: Option<Groups>)
    ensures g.Some? ==> WellFormedGroups(g.value)
  {
    if !OccursAt(s, AliasPhrase, p) then None
    else match QuoteFrom(s, p + |AliasPhrase|)
      case None => None
      case Some(e) =>
        var body := s[p + |AliasPhrase|..e];
        if Space !in body then None
        else
          var n := IndexOf(body, Space);
          assert body[..n] <= body;
          Some(Groups(body, body[..n]))
  }

  /** The answer of `f` at the latest position below `k` where it has one. */
  function LastAnswer<T>(f: nat -> Option<T>, k: nat): (g: Option<T>)
    ensures g.None? <==> forall p :: 0 <= p < k ==> f(p).None?
    ensures g.Some? ==> exists p :: 0 <= p < k && f(p) == g &&
                                    forall q :: p < q < k ==> f(q).None?
  {
    if k == 0 then None
    else if f(k - 1).Some? then f(k - 1)
    else LastAnswer(f, k - 1)
  }

  /**
   * `regexec` of the alias pattern. The pattern starts with `.*`, so a match
   * starts at the beginning of the line; POSIX picks the longest one, which is
   * the one whose literal starts latest (the body of a later literal never
   * ends earlier), and among equally long ones lets `.*` take the most.
   */
  function MatchAlias(s: string): (g: Option<Groups>)
    ensures g.Some? ==> WellFormedGroups(g.value)
    ensures g.Some? ==> exists p :: 0 <= p <= |s| && AliasAt(s, p) == g &&
                                    forall q :: p < q <= |s| ==> AliasAt(s, q).None?
    ensures g.None? <==> forall p :: 0 <= p <= |s| ==> AliasAt(s, p).None?
  {
    var f := (p: nat) => AliasAt(s, p);
    var g := LastAnswer(f, |s| + 1);
    assert forall p: nat :: f(p) == AliasAt(s, p);
    assert g.Some? ==> WellFormedGroups(g.value) by {
      if g.Some? {
        var p :| 0 <= p < |s| + 1 && AliasAt(s, p) == g;
      }
    }
    g
  }

  /** `get_group(&alias_r, line, group)` for the pattern's groups 1 and 2. */
  function GetGroup(line: string, group: nat): (r: Option<string>)
    requires group == 1 || group == 2
    ensures r.Some? <==> MatchAlias(line).Some?
  {
    match MatchAlias(line)
    case None => None
    case Some(g) => Some(if group == 1 then g.declaration else g.target)
  }

  /**
   * What one line of the reply says: the builtin test comes first, then the
   * alias pattern (groups 2 and 1, in the order the source asks for them).
   * A line that says something yields a builtin or an alias, never both.
   */
  function ClassifyLine(shell: string, line: string): (m: Option<TypeMatch>)
    ensures m.Some? ==> WellFormedMatch(shell, m.value)
  {
    var l := UntilNul(line);
    if Contains(l, BuiltinMarker) then Some(TypeMatch(None, 1))
    else
      var aliasFor := GetGroup(l, 2);
      if aliasFor.None? then None
      else
        var declaration := GetGroup(l, 1);
        Some(TypeMatch(Some(AliasMatch(shell, declaration.value, aliasFor.value)), 0))
  }

  /** A result `find_type` can produce for shell `shell`. */
  predicate WellFormedMatch(shell: string, m: TypeMatch) {
    || (m.aliasMatch.None? && m.builtinMatch == 1)
    || (&& m.aliasMatch.Some? && m.builtinMatch == 0
        && m.aliasMatch.value.shell == shell
        && WellFormedGroups(Groups(m.aliasMatch.value.declaration, m.aliasMatch.value.aliasFor)))
  }

  /** The first answer `f` gives along `lines`. */
  function FirstAnswer<T>(f: string -> Option<T>, lines: seq<string>): (m: Option<T>)
    ensures m.None? <==> forall i :: 0 <= i < |lines| ==> f(lines[i]).None?
    ensures m.Some? ==> exists i :: 0 <= i < |lines| && m == f(lines[i]) &&
                                    forall j :: 0 <= j < i ==> f(lines[j]).None?
  {
    if lines == [] then None
    else if f(lines[0]).Some? then f(lines[0])
    else
      var m := FirstAnswer(f, lines[1..]);
      assert forall i :: 1 <= i < |lines| ==> lines[i] == lines[1..][i - 1];
      assert m.Some? ==> exists i :: 0 <= i < |lines| && m == f(lines[i]) &&
                                     forall j :: 0 <= j < i ==> f(lines[j]).None? by {
        if m.Some? {
          var i :| 0 <= i < |lines[1..]| && m == f(lines[1..][i]) &&
            forall j :: 0 <= j < i ==> f(lines[1..][j]).None?;
          assert m == f(lines[i + 1]);
        }
      }
      m
  }

  /** The classification of a whole reply: the first line that says something wins. */
  function Classify(shell: string, lines: seq<string>): (m: Option<TypeMatch>)
    ensures m.None? <==> forall i :: 0 <= i < |lines| ==> ClassifyLine(shell, lines[i]).None?
    ensures m.Some? ==> exists i :: 0 <= i < |lines| && m == ClassifyLine(shell, lines[i]) &&
                                    forall j :: 0 <= j < i ==> ClassifyLine(shell, lines[j]).None?
    ensures m.Some? ==> WellFormedMatch(shell, m.value)
  {
    FirstAnswer(line => ClassifyLine(shell, line), lines)
  }

  /** The `getline` loop of `find_type`: scan in order, stop at the first answer. */
  method FindType(shell: string, reply: seq<string>) returns (m: Option<TypeMatch>)
    ensures m == Classify(shell, reply)
  {
    m := None;
    var i := 0;
    while i < |reply|
      invariant 0 <= i <= |reply|
      invariant Classify(shell, reply) == Classify(shell, reply[i..])
    {
      var found := ClassifyLine(shell, reply[i]);
      ClassifyUnfold(shell, reply[i..]);
      if found.Some? {
        m := found;
        return;
      }
      assert reply[i..][1..] == reply[i + 1..];
      i := i + 1;
    }
  }

  /** One step of the scan. */
  lemma ClassifyUnfold(shell: string, lines: seq<string>)
    requires |lines| > 0
    ensures Classify(shell, lines) ==
      if ClassifyLine(shell, lines[0]).Some? then ClassifyLine(shell, lines[0]) else Classify(shell, lines[1..])
  {
    var f := line => ClassifyLine(shell, line);
    assert FirstAnswer(f, lines) ==
      if f(lines[0]).Some? then f(lines[0]) else FirstAnswer(f, lines[1..]);
  }

  /* ---------- The alias pattern, characterised ---------- */

  /** The match whose literal ends a line of the alias form. */
  lemma AliasAtForm(s: string, pre: string, t: string, r: string, rest: string)
    requires AliasForm(s, pre, t, r, rest)
    ensures AliasAt(s, |pre|) == Some(Groups(t + [Space] + r, t))
  {
    var b := |pre| + |AliasPhrase|;
    var body := t + [Space] + r;
    var c := b + |body|;
    FormParts(s, pre, t, r, rest);
    QuoteFromFirst(s, b, c);
    assert body[..|t|] == t;
    IndexOfFirst(body, Space, |t|);
  }

  /** Where the pieces of an alias-form line sit. */
  lemma FormParts(s: string, pre: string, t: string, r: string, rest: string)
    requires AliasForm(s, pre, t, r, rest)
    ensures var b := |pre| + |AliasPhrase|;
      var c := b + |t| + 1 + |r|;
      && OccursAt(s, AliasPhrase, |pre|)
      && c < |s| && s[b..c] == t + [Space] + r && s[c] == Quote
      && forall j :: b <= j < c ==> s[j] != Quote
  {
    var b := |pre| + |AliasPhrase|;
    var body := t + [Space] + r;
    var c := b + |body|;
    assert s == pre + AliasPhrase + body + [Quote] + rest;
    assert s[|pre|..b] == AliasPhrase;
    assert s[b..c] == body;
    forall j | b <= j < c ensures s[j] != Quote {
      assert s[j] == body[j - b];
      if j - b < |t| {
        assert body[j - b] == t[j - b];
      } else if j - b > |t| {
        assert body[j - b] == r[j - b - |t| - 1];
      }
    }
  }

  /** The first quote from `b` on is at `c`. */
  lemma QuoteFromFirst(s: string, b: nat, c: nat)
    requires b <= c < |s| && s[c] == Quote
    requires forall j :: b <= j < c ==> s[j] != Quote
    ensures QuoteFrom(s, b) == Some(c)
  {
  }

  /** The first `x` in `body` is at `n`. */
  lemma IndexOfFirst(body: string, x: char, n: nat)
    requires n < |body| && body[n] == x && x !in body[..n]
    ensures IndexOf(body, x) == n
  {
    var i := IndexOf(body, x);
    assert forall k :: 0 <= k < n ==> body[..n][k] == body[k];
    assert forall k :: 0 <= k < i ==> body[..i][k] == body[k];
  }

  /** A match at one literal comes from a line of the alias form. */
  lemma AliasAtSound(s: string, p: nat) returns (pre: string, t: string, r: string, rest: string)
    requires AliasAt(s, p).Some?
    ensures AliasForm(s, pre, t, r, rest) && AliasAt(s, p).value == Groups(t + [Space] + r, t)
    ensures |pre| == p
  {
    var e, n := AliasAtParts(s, p);
    var b := p + |AliasPhrase|;
    var body := s[b..e];
    t, r := body[..n], body[n + 1..];
    pre, rest := s[..p], s[e + 1..];
    assert forall j :: 0 <= j < |body| ==> body[j] == s[b + j];
    SplitAtSpace(body, n);
    Reassemble(s, p, e);
    FormFromParts(s, pre, body, t, r, rest);
  }

  /** A line split as prefix, literal, body, quote and rest, with the body cut at a space. */
  lemma FormFromParts(s: string, pre: string, body: string, t: string, r: string, rest: string)
    requires s == pre + AliasPhrase + body + [Quote] + rest
    requires body == t + [Space] + r
    requires Quote !in t && Space !in t && Quote !in r
    ensures AliasForm(s, pre, t, r, rest)
  {
    ConcatRegroup(pre, AliasPhrase, t, [Space], r);
  }

  /** The closing quote and the first space of a match at `p`. */
  lemma AliasAtParts(s: string, p: nat) returns (e: nat, n: nat)
    requires AliasAt(s, p).Some?
    ensures OccursAt(s, AliasPhrase, p)
    ensures p + |AliasPhrase| <= e < |s| && s[e] == Quote
    ensures forall j :: p + |AliasPhrase| <= j < e ==> s[j] != Quote
    ensures var body := s[p + |AliasPhrase|..e];
      && n < |body| && body[n] == Space && Space !in body[..n]
      && AliasAt(s, p).value == Groups(body, body[..n])
  {
    var b := p + |AliasPhrase|;
    e := QuoteFrom(s, b).value;
    n := IndexOf(s[b..e], Space);
  }

  lemma ConcatRegroup(a: string, b: string, c: string, d: string, e: string)
    ensures a + b + (c + d + e) == a + b + c + d + e
  {
  }

  /** A quote-free body cut at its first space. */
  lemma SplitAtSpace(body: string, n: nat)
    requires n < |body| && body[n] == Space && Space !in body[..n]
    requires forall j :: 0 <= j < |body| ==> body[j] != Quote
    ensures body == body[..n] + [Space] + body[n + 1..]
    ensures Quote !in body[..n] && Quote !in body[n + 1..]
  {
    assert forall x :: x in body[..n] ==> x in body;
    assert forall x :: x in body[n + 1..] ==> x in body;
  }

  /** A line is its prefix, the literal, the body and the closing quote, then the rest. */
  lemma Reassemble(s: string, p: nat, e: nat)
    requires OccursAt(s, AliasPhrase, p)
    requires p + |AliasPhrase| <= e < |s| && s[e] == Quote
    ensures s == s[..p] + AliasPhrase + s[p + |AliasPhrase|..e] + [Quote] + s[e + 1..]
  {
    var b := p + |AliasPhrase|;
    assert s[p..b] == AliasPhrase;
    assert s == s[..p] + s[p..b] + s[b..e] + [s[e]] + s[e + 1..];
  }

  /** Every match comes from a line of the alias form, and its groups are t+" "+r and t. */
  lemma MatchAliasSound(s: string)
    requires MatchAlias(s).Some?
    ensures exists pre, t, r, rest :: AliasForm(s, pre, t, r, rest) &&
                                      MatchAlias(s).value == Groups(t + [Space] + r, t)
  {
    var p :| 0 <= p <= |s| && AliasAt(s, p) == MatchAlias(s);
    var pre, t, r, rest := AliasAtSound(s, p);
  }

  /** Every line of the alias form matches (perhaps at a later literal). */
  lemma MatchAliasComplete(s: string, pre: string, t: string, r: string, rest: string)
    requires AliasForm(s, pre, t, r, rest)
    ensures MatchAlias(s).Some?
  {
    AliasAtForm(s, pre, t, r, rest);
  }

  /**
   * When the body holds no backtick and nothing after the closing quote is a
   * quote, the groups are exactly the body and its first word.
   */
  lemma MatchAliasExact(s: string, pre: string, t: string, r: string, rest: string)
    requires AliasForm(s, pre, t, r, rest)
    requires Backtick !in t && Backtick !in r && Quote !in rest
    ensures MatchAlias(s) == Some(Groups(t + [Space] + r, t))
  {
    AliasAtForm(s, pre, t, r, rest);
    forall q | |pre| < q <= |s| ensures AliasAt(s, q).None? {
      NoLaterLiteral(s, pre, t, r, rest, q);
    }
    var g := MatchAlias(s).value;
    var p :| 0 <= p <= |s| && AliasAt(s, p) == Some(g) &&
      forall q :: p < q <= |s| ==> AliasAt(s, q).None?;
    assert p == |pre|;
  }

  /**
   * Past the literal of an alias-form line with no backtick in the body and
   * no quote after it, no literal can start a match.
   */
  lemma NoLaterLiteral(s: string, pre: string, t: string, r: string, rest: string, q: nat)
    requires AliasForm(s, pre, t, r, rest)
    requires Backtick !in t && Backtick !in r && Quote !in rest
    requires |pre| < q <= |s|
    ensures AliasAt(s, q).None?
  {
    var b := |pre| + |AliasPhrase|;
    var body := t + [Space] + r;
    var c := b + |body|;
    assert s == pre + AliasPhrase + body + [Quote] + rest;
    if q + 14 <= c {
      if q + 14 < c {
        assert s[q + 14] == body[q + 14 - b];
        assert Backtick !in body;
      } else {
        assert s[c] == Quote;
      }
      NoLiteralWithoutBacktick(s, q);
    } else {
      forall j | q + |AliasPhrase| <= j < |s| ensures s[j] != Quote {
        assert s[j] == rest[j - c - 1];
      }
    }
  }

  /** The literal ends in a backtick, so it cannot start where none follows. */
  lemma NoLiteralWithoutBacktick(s: string, q: nat)
    requires q + 14 < |s| ==> s[q + 14] != Backtick
    ensures !OccursAt(s, AliasPhrase, q)
  {
    if q + |AliasPhrase| <= |s| {
      assert s[q..q + |AliasPhrase|][14] != AliasPhrase[14];
    }
  }

  /** The line bash prints for `type name` when `name` is an alias of `body`. */
  function AliasReply(name: string, body: string): string {
    name + [Space] + AliasPhrase + body + [Quote] + "\n"
  }

  /** A one-word alias body, as bash prints for `alias ll=ls`, is not recognised. */
  lemma OneWordBodyRejected(name: string, word: string)
    requires Space !in name && Quote !in name && Backtick !in name
    requires Space !in word && Quote !in word && Backtick !in word
    ensures MatchAlias(AliasReply(name, word)) == None
  {
    var s := AliasReply(name, word);
    var n := |name|;
    var b := n + 1 + |AliasPhrase|;
    assert s == name + [Space] + AliasPhrase + word + [Quote, '\n'];
    forall j | 0 <= j < |s| && j != b - 1 ensures s[j] != Backtick {
      if j < n { assert s[j] == name[j]; }
      else if n <= j < b - 1 { assert s[j] == ([Space] + AliasPhrase)[j - n]; }
      else if b <= j < b + |word| { assert s[j] == word[j - b]; }
    }
    forall p | 0 <= p <= |s| ensures AliasAt(s, p).None? {
      if p != n + 1 {
        NoLiteralWithoutBacktick(s, p);
      } else {
        assert s[b + |word|] == Quote;
        forall j | b <= j < b + |word| ensures s[j] != Quote {
          assert s[j] == word[j - b];
        }
        assert QuoteFrom(s, b) == Some(b + |word|);
        assert s[b..b + |word|] == word;
      }
    }
  }

  /** With no builtin mention either, such a reply says nothing at all. */
  lemma OneWordAliasUnclassified(shell: string, name: string, word: string)
    requires Space !in name && Quote !in name && Backtick !in name && Nul !in name
    requires Space !in word && Quote !in word && Backtick !in word && Nul !in word
    requires !Contains(AliasReply(name, word), BuiltinMarker)
    ensures ClassifyLine(shell, AliasReply(name, word)) == None
  {
    OneWordBodyRejected(name, word);
    UntilNulWhole(AliasReply(name, word));
  }

  /**
   * A reply line for an alias whose body has a first word `t` and more words
   * `r` classifies as that alias, with the whole body as its declaration and
   * `t` as the name to resolve next.
   */
  lemma AliasReplyClassified(shell: string, name: string, t: string, r: string)
    requires Nul !in name && Nul !in t && Nul !in r
    requires Space !in t && Quote !in t && Backtick !in t
    requires Quote !in r && Backtick !in r
    requires !Contains(AliasReply(name, t + [Space] + r), BuiltinMarker)
    ensures ClassifyLine(shell, AliasReply(name, t + [Space] + r)) ==
      Some(TypeMatch(Some(AliasMatch(shell, t + [Space] + r, t)), 0))
  {
    var line := AliasReply(name, t + [Space] + r);
    assert line == (name + [Space]) + AliasPhrase + t + [Space] + r + [Quote] + "\n";
    UntilNulWhole(line);
    MatchAliasExact(line, name + [Space], t, r, "\n");
  }

  /** bash's reply for `alias ls='ls --color=auto -la'`: the target is `ls`. */
  lemma FirstWordIsTarget(shell: string, t: string, r: string)
    requires t == "ls" && r == "--color=auto -la"
    ensures ClassifyLine(shell, AliasReply(t, t + [Space] + r)) ==
      Some(TypeMatch(Some(AliasMatch(shell, t + [Space] + r, t)), 0))
  {
    assert 'h' !in t && 'h' !in r && Nul !in t && Nul !in r;
    assert Space !in t && Quote !in t && Backtick !in t && Quote !in r && Backtick !in r;
    NoMention(t, t + [Space] + r);
    AliasReplyClassified(shell, t, t, r);
  }

  /** A reply without the letter 'h' cannot mention "is a shell builtin". */
  lemma NoMention(name: string, body: string)
    requires 'h' !in name && 'h' !in body
    ensures !Contains(AliasReply(name, body), BuiltinMarker)
  {
    assert 'h' !in AliasPhrase;
    assert 'h' !in "\n";
    var line := AliasReply(name, body);
    assert line == name + [Space] + AliasPhrase + body + [Quote] + "\n";
    assert 'h' !in line;
    assert BuiltinMarker[6] == 'h';
    MissingCharNotContained(line, BuiltinMarker, 'h');
  }

  /** Every bash alias reply whose body has two words or more matches the pattern. */
  lemma AliasReplyMatches(name: string, t: string, r: string)
    requires Space !in t && Quote !in t && Quote !in r
    ensures MatchAlias(AliasReply(name, t + [Space] + r)).Some?
  {
    var line := AliasReply(name, t + [Space] + r);
    assert line == (name + [Space]) + AliasPhrase + t + [Space] + r + [Quote] + "\n";
    MatchAliasComplete(line, name + [Space], t, r, "\n");
  }

  /**
   * The builtin test runs first: a reply line of the alias form whose body
   * mentions "is a shell builtin" is a builtin, although the pattern matches.
   */
  lemma BuiltinTestComesFirst(shell: string, name: string, t: string, r: string)
    requires Nul !in name && Nul !in t && Nul !in r
    requires Space !in t && Quote !in t && Quote !in r
    requires Contains(r, BuiltinMarker)
    ensures MatchAlias(AliasReply(name, t + [Space] + r)).Some?
    ensures ClassifyLine(shell, AliasReply(name, t + [Space] + r)) == Some(TypeMatch(None, 1))
  {
    var a := t + [Space];
    assert Nul !in a;
    AliasReplyMatches(name, t, r);
    BuiltinInBody(shell, name, a, r);
  }

  /** A reply whose body mentions "is a shell builtin" classifies as a builtin. */
  lemma BuiltinInBody(shell: string, name: string, a: string, r: string)
    requires Nul !in name && Nul !in a && Nul !in r
    requires Contains(r, BuiltinMarker)
    ensures ClassifyLine(shell, AliasReply(name, a + r)) == Some(TypeMatch(None, 1))
  {
    MentionInReply(name, a, r);
    BuiltinLine(shell, AliasReply(name, a + r));
  }

  /** The reply line holds the body's mention, and no NUL. */
  lemma MentionInReply(name: string, a: string, r: string)
    requires Nul !in name && Nul !in a && Nul !in r
    requires Contains(r, BuiltinMarker)
    ensures Nul !in AliasReply(name, a + r) && Contains(AliasReply(name, a + r), BuiltinMarker)
  {
    var front := name + [Space] + AliasPhrase + a;
    var back := [Quote] + "\n";
    assert AliasReply(name, a + r) == front + r + back;
    ContainsWithin(front, r, back, BuiltinMarker);
  }

  /** Any NUL-free line that says "is a shell builtin" classifies as a builtin. */
  lemma BuiltinLine(shell: string, line: string)
    requires Nul !in line && Contains(line, BuiltinMarker)
    ensures ClassifyLine(shell, line) == Some(TypeMatch(None, 1))
  {
    UntilNulWhole(line);
  }

  /** A body that starts with a space gives an empty target. */
  lemma EmptyTargetAccepted(shell: string, name: string, r: string)
    requires Nul !in name && Nul !in r
    requires Quote !in r && Backtick !in r
    requires !Contains(AliasReply(name, [Space] + r), BuiltinMarker)
    ensures ClassifyLine(shell, AliasReply(name, [Space] + r)) ==
      Some(TypeMatch(Some(AliasMatch(shell, [Space] + r, "")), 0))
  {
    assert [] + [Space] + r == [Space] + r;
    AliasReplyClassified(shell, name, [], r);
  }

  /** A C string with no NUL in it is read in full. */
  lemma UntilNulWhole(s: string)
    requires Nul !in s
    ensures UntilNul(s) == s
  {
  }

  /** Text after a NUL byte is invisible to both tests. */
  lemma TextAfterNulIgnored(shell: string, line: string, tail: string)
    requires Nul !in line
    ensures ClassifyLine(shell, line + [Nul] + tail) == ClassifyLine(shell, line)
  {
    UntilNulStops(line, tail);
    UntilNulWhole(line);
  }
}
