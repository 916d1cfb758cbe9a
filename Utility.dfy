/** Splitting a comic's file name into search tokens (fe/src/lib/utility.ts): the text
    between bracket pairs and the text outside them become separate, trimmed tokens. */
module FilenameTokens {
  import opened PyText
  import opened Lists

  /** `pairsSeparator.get(c)`: the closing character of an opening bracket. */
  function CloserOf(c: char): Option<char>
  {
    if c == '(' then Some(')')
    else if c == '[' then Some(']')
    else if c == '{' then Some('}')
    else if c == '【' then Some('】')
    else if c == '<' then Some('>')
    else if c == '《' then Some('》')
    else None
  }

  /** `pairsSeparator.has(c)`. */
  predicate IsOpener(c: char)
  {
    CloserOf(c).Some?
  }

  /** A closer is never an opener, so the search for it cannot stop at the opener. */
  lemma CloserNotOpener(c: char)
    requires IsOpener(c)
    ensures !IsOpener(CloserOf(c).value) && CloserOf(c).value != c
  {
  }

  // ---------------------------------------------------------------- trimming

  /** JavaScript WhiteSpace and LineTerminator code points, what `String.prototype.trim`
      removes. */
  predicate JsSpace(c: char)
  {
    ('\t' <= c <= '\r') || c == ' ' || c == '\U{00A0}' || c == '\U{1680}'
    || ('\U{2000}' <= c <= '\U{200A}') || c == '\U{2028}' || c == '\U{2029}'
    || c == '\U{202F}' || c == '\U{205F}' || c == '\U{3000}' || c == '\U{FEFF}'
  }

  function TrimStart(s: string): string
  {
    if |s| > 0 && JsSpace(s[0]) then TrimStart(s[1..]) else s
  }

  function TrimEnd(s: string): string
  {
    if |s| > 0 && JsSpace(s[|s| - 1]) then TrimEnd(s[..|s| - 1]) else s
  }

  /** `String.prototype.trim`. */
  function Trim(s: string): string
  {
    TrimEnd(TrimStart(s))
  }

  /** Trimming the start leaves a suffix that does not start with white space. */
  lemma {:induction false} TrimStartSuffix(s: string)
    ensures |TrimStart(s)| <= |s| && TrimStart(s) == s[|s| - |TrimStart(s)|..]
    ensures |TrimStart(s)| > 0 ==> !JsSpace(TrimStart(s)[0])
  {
    if |s| > 0 && JsSpace(s[0]) {
      TrimStartSuffix(s[1..]);
    }
  }

  /** Trimming the end leaves a prefix that does not end with white space. */
  lemma {:induction false} TrimEndPrefix(s: string)
    ensures TrimEnd(s) <= s
    ensures |TrimEnd(s)| > 0 ==> !JsSpace(TrimEnd(s)[|TrimEnd(s)| - 1])
  {
    if |s| > 0 && JsSpace(s[|s| - 1]) {
      TrimEndPrefix(s[..|s| - 1]);
    }
  }

  lemma TrimStartEnd(s: string)
    requires |s| == 0 || (!JsSpace(s[0]) && !JsSpace(s[|s| - 1]))
    ensures TrimStart(s) == s && TrimEnd(s) == s
  {
  }

  /** What `Trim` returns neither starts nor ends with white space, so trimming twice
      changes nothing. */
  lemma TrimIdempotent(s: string)
    ensures var t := Trim(s); |t| == 0 || (!JsSpace(t[0]) && !JsSpace(t[|t| - 1]))
    ensures Trim(Trim(s)) == Trim(s)
  {
    var u := TrimStart(s);
    var t := TrimEnd(u);
    TrimStartSuffix(s);
    TrimEndPrefix(u);
    assert |t| > 0 ==> t[0] == u[0];
    TrimStartEnd(t);
  }

  // ---------------------------------------------------------------- tokens

  /** A token, unless `!!s` drops it for being empty. */
  function Keep(t: string): seq<string>
  {
    if t == "" then [] else [t]
  }

  /** `ret.filter((s) => !!s)`: the non-empty strings, in order. */
  function NonEmpty(xs: seq<string>): seq<string>
  {
    if xs == [] then [] else NonEmpty(xs[..|xs| - 1]) + Keep(xs[|xs| - 1])
  }

  /** Prefixing tokens to a parse that may have failed. */
  function Then(xs: seq<string>, rest: Option<seq<string>>): Option<seq<string>>
  {
    match rest
    case None => None
    case Some(r) => Some(xs + r)
  }

  /** Flushing the text buffer pushes it, trimmed, when it is not empty. */
  function Flush(buffer: string): seq<string>
  {
    if |buffer| > 0 then [Trim(buffer)] else []
  }

  /** What is pushed while scanning `s` from `i`, the current plain text having started
      at `lo`: an opening bracket flushes the text `s[lo..i]` and pushes the trimmed text
      up to the first matching closer after it (which may hold other brackets), and the
      scan resumes after that closer; the end of the name flushes the text. `None` when an
      opening bracket has no closer after it. */
  function Pushes(s: string, lo: nat, i: nat): Option<seq<string>>
    requires lo <= i <= |s|
    decreases |s| - i
  {
    if i == |s| then Some(Flush(s[lo..i]))
    else if IsOpener(s[i]) then
      var j := IndexOf(s, CloserOf(s[i]).value, i);
      if j < 0 then None
      else Then(Flush(s[lo..i]) + [Trim(s[i + 1..j])], Pushes(s, j + 1, j + 1))
    else Pushes(s, lo, i + 1)
  }

  /** What `separateFilenameImpl` returns: the non-empty pushed strings, or `[]` when a
      bracket is left open. */
  function Tokens(s: string): seq<string>
  {
    match Pushes(s, 0, 0)
    case None => []
    case Some(p) => NonEmpty(p)
  }

  /** `separateFilenameImpl`: one pass over the name with a text buffer; an opening bracket
      flushes the buffer, pushes the text up to its closer and jumps past it. */
  method SeparateFilenameImpl(s: string) returns (r: seq<string>)
    ensures r == Tokens(s)
  {
    var ret: seq<string> := [];
    var buffer := "";
    ghost var lo := 0;
    var i := 0;
    ghost var total := Pushes(s, 0, 0);
    ThenNil(total);
    while i < |s|
      invariant lo <= i <= |s|
      invariant buffer == s[lo..i]
      invariant total == Then(ret, Pushes(s, lo, i))
      decreases |s| - i
    {
      if IsOpener(s[i]) {
        OpenerStep(s, lo, i, ret, total);
        if |buffer| > 0 {
          ret := ret + [Trim(buffer)];
        }
        var j := IndexOf(s, CloserOf(s[i]).value, i);
        if j < 0 {
          return [];
        }
        ret := ret + [Trim(s[i + 1..j])];
        buffer := "";
        lo := j + 1;
        i := j + 1;
      } else {
        assert s[lo..i + 1] == s[lo..i] + [s[i]];
        PushesSkip(s, lo, i, i + 1);
        buffer := buffer + [s[i]];
        i := i + 1;
      }
    }
    AtEnd(s, lo, ret, total);
    if |buffer| > 0 {
      ret := ret + [Trim(buffer)];
    }
    r := NonEmpty(ret);
  }

  /** At the end of the name the text since the last group is flushed. */
  lemma AtEnd(s: string, lo: nat, ret: seq<string>, total: Option<seq<string>>)
    requires lo <= |s| && total == Then(ret, Pushes(s, lo, |s|))
    ensures total == Some(if |s[lo..|s|]| > 0 then ret + [Trim(s[lo..|s|])] else ret)
  {
    assert ret + [] == ret;
  }

  /** One step at an opening bracket: the scan either fails, or continues after the
      closer with the flushed text and the group pushed. */
  lemma OpenerStep(s: string, lo: nat, i: nat, ret: seq<string>, total: Option<seq<string>>)
    requires lo <= i < |s| && IsOpener(s[i])
    requires total == Then(ret, Pushes(s, lo, i))
    ensures var j := IndexOf(s, CloserOf(s[i]).value, i);
      if j < 0 then total == None
      else
        var flushed := if |s[lo..i]| > 0 then ret + [Trim(s[lo..i])] else ret;
        j + 1 <= |s| && total == Then(flushed + [Trim(s[i + 1..j])], Pushes(s, j + 1, j + 1))
  {
    var j := IndexOf(s, CloserOf(s[i]).value, i);
    CloserNotOpener(s[i]);
    if j >= 0 {
      var group := [Trim(s[i + 1..j])];
      ThenThen(ret, Flush(s[lo..i]) + group, Pushes(s, j + 1, j + 1));
      assert ret + (Flush(s[lo..i]) + group) == ret + Flush(s[lo..i]) + group;
      assert ret + [] == ret;
    }
  }

  /** Scanning plain text only moves the scan position. */
  lemma {:induction false} PushesSkip(s: string, lo: nat, i: nat, k: nat)
    requires lo <= i <= k <= |s|
    requires forall m :: i <= m < k ==> !IsOpener(s[m])
    ensures Pushes(s, lo, i) == Pushes(s, lo, k)
    decreases k - i
  {
    if i < k {
      PushesSkip(s, lo, i + 1, k);
    }
  }

  lemma TrimEmpty()
    ensures Trim("") == ""
  {
  }

  lemma {:induction false} NonEmptyAppend(xs: seq<string>, ys: seq<string>)
    ensures NonEmpty(xs + ys) == NonEmpty(xs) + NonEmpty(ys)
    decreases |ys|
  {
    if ys == [] {
      assert xs + ys == xs;
    } else {
      var init := ys[..|ys| - 1];
      assert (xs + ys)[..|xs + ys| - 1] == xs + init;
      NonEmptyAppend(xs, init);
    }
  }

  /** A flushed buffer survives the filter exactly when its trimmed text is not empty. */
  lemma NonEmptyFlush(buffer: string)
    ensures NonEmpty(Flush(buffer)) == Keep(Trim(buffer))
  {
    if |buffer| > 0 {
      assert [Trim(buffer)][..0] == [];
    } else {
      TrimEmpty();
    }
  }

  lemma ThenNil(rest: Option<seq<string>>)
    ensures Then([], rest) == rest
  {
    if rest.Some? {
      assert [] + rest.value == rest.value;
    }
  }

  lemma ThenThen(a: seq<string>, b: seq<string>, rest: Option<seq<string>>)
    ensures Then(a, Then(b, rest)) == Then(a + b, rest)
  {
    if rest.Some? {
      assert a + (b + rest.value) == (a + b) + rest.value;
    }
  }

  /** `separateFilename`: the tokens of every backslash-separated part, concatenated. */
  function SeparateFilename(filename: string): seq<string>
  {
    ConcatMap(Split(filename, '\\'), Tokens)
  }

  // ---------------------------------------------------------------- properties

  /** A string with neither leading nor trailing white space. */
  predicate Trimmed(t: string)
  {
    |t| == 0 || (!JsSpace(t[0]) && !JsSpace(t[|t| - 1]))
  }

  /** The filter keeps exactly the non-empty strings. */
  lemma {:induction false} NonEmptyExactly(xs: seq<string>, x: string)
    ensures x in NonEmpty(xs) <==> x in xs && x != ""
  {
    if xs != [] {
      NonEmptyExactly(xs[..|xs| - 1], x);
      assert xs == xs[..|xs| - 1] + [xs[|xs| - 1]];
    }
  }

  /** Everything pushed is trimmed. */
  lemma {:induction false} PushesTrimmed(s: string, lo: nat, i: nat)
    requires lo <= i <= |s|
    ensures Pushes(s, lo, i).Some? ==> forall x :: x in Pushes(s, lo, i).value ==> Trimmed(x)
    decreases |s| - i
  {
    TrimIdempotent(s[lo..i]);
    if i < |s| {
      if IsOpener(s[i]) {
        var j := IndexOf(s, CloserOf(s[i]).value, i);
        if j >= 0 {
          TrimIdempotent(s[i + 1..j]);
          PushesTrimmed(s, j + 1, j + 1);
        }
      } else {
        PushesTrimmed(s, lo, i + 1);
      }
    }
  }

  /** Every token is non-empty and has no surrounding white space. */
  lemma TokensTrimmed(s: string)
    ensures forall x :: x in Tokens(s) ==> x != "" && Trimmed(x)
  {
    PushesTrimmed(s, 0, 0);
    if Pushes(s, 0, 0).Some? {
      forall x | x in Tokens(s)
        ensures x != "" && Trimmed(x)
      {
        NonEmptyExactly(Pushes(s, 0, 0).value, x);
      }
    }
  }

  /** Without brackets the whole name, trimmed, is the only token (none if it is blank). */
  lemma NoBrackets(s: string)
    requires forall m :: 0 <= m < |s| ==> !IsOpener(s[m])
    ensures Tokens(s) == Keep(Trim(s))
  {
    PushesSkip(s, 0, 0, |s|);
    assert s[0..|s|] == s;
    NonEmptyFlush(s);
  }

  /** An opening bracket with no closer after it makes the whole part yield nothing,
      whatever tokens came before it. */
  lemma UnclosedBracket(s: string, k: nat)
    requires k < |s| && IsOpener(s[k])
    requires forall m :: 0 <= m < k ==> !IsOpener(s[m])
    requires forall m :: k < m < |s| ==> s[m] != CloserOf(s[k]).value
    ensures Tokens(s) == []
  {
    PushesSkip(s, 0, 0, k);
    CloserNotOpener(s[k]);
  }

  /** From `lo`, the first bracket group ends at the first closer of its kind: the text
      before the opener is flushed, what lies between (which may hold other brackets, or
      openers of the same kind) is pushed as one string, and the scan starts afresh after
      that closer. */
  lemma GroupAt(s: string, lo: nat, k: nat, j: nat)
    requires lo <= k < j < |s| && IsOpener(s[k]) && s[j] == CloserOf(s[k]).value
    requires forall m :: lo <= m < k ==> !IsOpener(s[m])
    requires forall m :: k < m < j ==> s[m] != CloserOf(s[k]).value
    ensures Pushes(s, lo, lo) == Then(Flush(s[lo..k]) + [Trim(s[k + 1..j])], Pushes(s, j + 1, j + 1))
  {
    PushesSkip(s, lo, lo, k);
    CloserNotOpener(s[k]);
    assert IndexOf(s, CloserOf(s[k]).value, k) == j;
  }

  /** The tokens of a name are the trimmed text before its first bracket, the trimmed
      first group, and the tokens after that group's closer, blank ones dropped. */
  lemma FirstGroup(s: string, k: nat, j: nat)
    requires k < j < |s| && IsOpener(s[k]) && s[j] == CloserOf(s[k]).value
    requires forall m :: 0 <= m < k ==> !IsOpener(s[m])
    requires forall m :: k < m < j ==> s[m] != CloserOf(s[k]).value
    ensures Tokens(s) == match Pushes(s, j + 1, j + 1)
      case None => []
      case Some(rest) => Keep(Trim(s[..k])) + Keep(Trim(s[k + 1..j])) + NonEmpty(rest)
  {
    GroupAt(s, 0, k, j);
    assert s[0..k] == s[..k];
    var rest := Pushes(s, j + 1, j + 1);
    if rest.Some? {
      GroupTokens(s[..k], s[k + 1..j], rest.value);
    }
  }

  lemma GroupTokens(head: string, group: string, rest: seq<string>)
    ensures NonEmpty(Flush(head) + [Trim(group)] + rest) ==
      Keep(Trim(head)) + Keep(Trim(group)) + NonEmpty(rest)
  {
    NonEmptyAppend(Flush(head) + [Trim(group)], rest);
    NonEmptyAppend(Flush(head), [Trim(group)]);
    NonEmptyFlush(head);
    assert [Trim(group)][..0] == [];
  }

  /** A token of the whole name is a token of one of its backslash-separated parts. */
  lemma SeparateFilenameParts(filename: string, x: string)
    ensures x in SeparateFilename(filename) <==>
      exists i :: 0 <= i < |Split(filename, '\\')| && x in Tokens(Split(filename, '\\')[i])
  {
    var parts := Split(filename, '\\');
    ConcatMapExactly(parts, Tokens, x);
    if x in SeparateFilename(filename) {
      var i :| 0 <= i < |parts| && x in (Tokens)(parts[i]);
      assert x in Tokens(parts[i]);
      assert 0 <= i < |Split(filename, '\\')| && x in Tokens(Split(filename, '\\')[i]);
    } else {
      forall i | 0 <= i < |parts|
        ensures x !in Tokens(parts[i])
      {
        assert Tokens(parts[i]) == (Tokens)(parts[i]);
      }
    }
  }

  /** The filter keeps a list with no empty string as it is. */
  lemma {:induction false} NonEmptyNoBlank(xs: seq<string>)
    requires forall i :: 0 <= i < |xs| ==> xs[i] != ""
    ensures NonEmpty(xs) == xs
  {
    if xs != [] {
      NonEmptyNoBlank(xs[..|xs| - 1]);
      assert xs == xs[..|xs| - 1] + [xs[|xs| - 1]];
    }
  }

  /** A name without a backslash is a single part. */
  lemma OnePart(filename: string)
    requires '\\' !in filename
    ensures SeparateFilename(filename) == Tokens(filename)
  {
    var parts := Split(filename, '\\');
    assert parts == [filename];
    assert parts[..0] == [];
    assert ConcatMap(parts, Tokens) == ConcatMap(parts[..0], Tokens) + (Tokens)(parts[0]);
    assert [] + Tokens(filename) == Tokens(filename);
  }

  // ---------------------------------------------------------------- keywords

  /** `keywords.every((keyword) => source.includes(keyword))`, checked in order. */
  function IncludeAllKeywords(source: string, keywords: seq<string>): bool
  {
    keywords == [] || (Contains(source, keywords[0]) && IncludeAllKeywords(source, keywords[1..]))
  }

  /** True exactly when every keyword occurs in the source; so true for no keywords. */
  lemma {:induction false} IncludeAllKeywordsExactly(source: string, keywords: seq<string>)
    ensures IncludeAllKeywords(source, keywords) <==> forall i :: 0 <= i < |keywords| ==> Contains(source, keywords[i])
  {
    if keywords != [] {
      IncludeAllKeywordsExactly(source, keywords[1..]);
      assert forall i :: 1 <= i < |keywords| ==> keywords[i] == keywords[1..][i - 1];
    }
  }

  /** A name without a backslash that opens with a bracket group: the group's text is the first
      token, followed by the tokens after the group. */
  lemma {:induction false} LeadingGroup(s: string, j: nat, rest: seq<string>)
    requires '\\' !in s
    requires 0 < j < |s| && IsOpener(s[0]) && s[j] == CloserOf(s[0]).value
    requires forall m :: 0 < m < j ==> s[m] != CloserOf(s[0]).value
    requires Trimmed(s[1..j]) && s[1..j] != ""
    requires Pushes(s, j + 1, j + 1) == Some(rest)
    requires forall i :: 0 <= i < |rest| ==> rest[i] != ""
    ensures SeparateFilename(s) == [s[1..j]] + rest
  {
    var g := s[1..j];
    assert Tokens(s) == Keep(Trim(s[..0])) + Keep(Trim(g)) + NonEmpty(rest) by { FirstGroup(s, 0, j); }
    assert Keep(Trim(s[..0])) == [] by { assert s[..0] == ""; TrimEmpty(); }
    assert Keep(Trim(g)) == [g] by { TrimStartEnd(g); }
    assert NonEmpty(rest) == rest by { NonEmptyNoBlank(rest); }
    OnePart(s);
  }

  // The expectations of fe/src/index.test.ts, proved about the model: each name opens with the
  // group `[a]`, and the tokens after it come from one more group.

  lemma TailSimple()
    ensures Pushes("[a]b(c)", 3, 3) == Some(["b", "c"])
  {
    var s := "[a]b(c)";
    assert s[3] == 'b' && s[4] == '(' && s[5] == 'c' && s[6] == ')';
    assert IndexOf(s, ')', 4) == 6 by { IndexOfIsFirst(s[4..], ')', 2); IndexOfSuffix(s, ')', 4, 0); }
    GroupAt(s, 3, 4, 6);
    assert s[3..4] == "b" && s[5..6] == "c";
    assert Trim("b") == "b" && Trim("c") == "c";
    assert Flush(s[3..4]) + [Trim(s[5..6])] == ["b", "c"];
    assert ["b", "c"] + [] == ["b", "c"];
    assert Then(["b", "c"], Some([])) == Some(["b", "c"]);
  }

  lemma ExampleSimple()
    ensures SeparateFilename("[a]b(c)") == ["a", "b", "c"]
  {
    var s := "[a]b(c)";
    TailSimple();
    assert s[0] == '[' && s[1] == 'a' && s[2] == ']' && s[1..2] == "a";
    LeadingGroup(s, 2, ["b", "c"]);
  }

  lemma TailSpace()
    ensures Pushes("[a] b(c)", 3, 3) == Some(["b", "c"])
  {
    var s := "[a] b(c)";
    assert s[3] == ' ' && s[4] == 'b' && s[5] == '(' && s[6] == 'c' && s[7] == ')';
    assert IndexOf(s, ')', 5) == 7 by { IndexOfIsFirst(s[5..], ')', 2); IndexOfSuffix(s, ')', 5, 0); }
    GroupAt(s, 3, 5, 7);
    assert s[3..5] == " b" && s[6..7] == "c";
    assert Trim(" b") == "b" && Trim("c") == "c";
    assert Flush(s[3..5]) + [Trim(s[6..7])] == ["b", "c"];
    assert ["b", "c"] + [] == ["b", "c"];
    assert Then(["b", "c"], Some([])) == Some(["b", "c"]);
  }

  lemma ExampleSpace()
    ensures SeparateFilename("[a] b(c)") == ["a", "b", "c"]
  {
    var s := "[a] b(c)";
    TailSpace();
    assert s[0] == '[' && s[1] == 'a' && s[2] == ']' && s[1..2] == "a";
    LeadingGroup(s, 2, ["b", "c"]);
  }

  lemma TailTrailingSpace()
    ensures Pushes("[a]b(c )", 3, 3) == Some(["b", "c"])
  {
    var s := "[a]b(c )";
    assert s[3] == 'b' && s[4] == '(' && s[5] == 'c' && s[6] == ' ' && s[7] == ')';
    assert IndexOf(s, ')', 4) == 7 by { IndexOfIsFirst(s[4..], ')', 3); IndexOfSuffix(s, ')', 4, 0); }
    GroupAt(s, 3, 4, 7);
    assert s[3..4] == "b" && s[5..7] == "c ";
    assert Trim("b") == "b" && Trim("c ") == "c";
    assert Flush(s[3..4]) + [Trim(s[5..7])] == ["b", "c"];
    assert ["b", "c"] + [] == ["b", "c"];
    assert Then(["b", "c"], Some([])) == Some(["b", "c"]);
  }

  lemma ExampleTrailingSpace()
    ensures SeparateFilename("[a]b(c )") == ["a", "b", "c"]
  {
    var s := "[a]b(c )";
    TailTrailingSpace();
    assert s[0] == '[' && s[1] == 'a' && s[2] == ']' && s[1..2] == "a";
    LeadingGroup(s, 2, ["b", "c"]);
  }

  /** A bracket inside a group is not a separator: the group runs to the first closer of its opener. */
  lemma ExampleNested()
    ensures SeparateFilename("[a(b)]c") == ["a(b)", "c"]
  {
    var s := "[a(b)]c";
    assert s[0] == '[' && s[1] == 'a' && s[2] == '(' && s[3] == 'b' && s[4] == ')' && s[5] == ']' && s[6] == 'c';
    assert Pushes(s, 6, 6) == Some(["c"]) by {
      PushesSkip(s, 6, 6, 7);
      assert s[6..7] == "c";
      assert Trim("c") == "c";
    }
    assert s[1..5] == "a(b)";
    LeadingGroup(s, 5, ["c"]);
  }
}
