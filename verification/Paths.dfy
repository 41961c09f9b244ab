/** Path names of fs/fs.c: the parts of a path between its slashes. */
module Paths {

  const MAXNAMELEN: nat := 128

  // How far s goes on without a slash.
  function WordLength(s: string): (n: nat)
    ensures n <= |s| && (forall i :: 0 <= i < n ==> s[i] != '/') && (n < |s| ==> s[n] == '/')
  {
    if s == "" || s[0] == '/' then 0 else 1 + WordLength(s[1..])
  }

  // The non-empty parts between the slashes.
  function Components(s: string): (parts: seq<string>)
    ensures forall i :: 0 <= i < |parts| ==> parts[i] != ""
    decreases |s|
  {
    if s == "" then []
    else if s[0] == '/' then Components(s[1..])
    else [s[..WordLength(s)]] + Components(s[WordLength(s)..])
  }

  function Join(parts: seq<string>): string {
    if parts == [] then "" else "/" + parts[0] + Join(parts[1..])
  }

  predicate Plain(part: string) {
    part != "" && forall i :: 0 <= i < |part| ==> part[i] != '/'
  }

  lemma WordThenSlash(s: string, n: nat)
    requires n <= |s| && (forall i :: 0 <= i < n ==> s[i] != '/') && (n < |s| ==> s[n] == '/')
    ensures WordLength(s) == n
  {
  }

  lemma FirstWord(word: string, rest: string)
    requires Plain(word) && (rest == "" || rest[0] == '/')
    ensures Components(word + rest) == [word] + Components(rest)
  {
    var s := word + rest;
    WordThenSlash(s, |word|);
    assert s[..|word|] == word && s[|word|..] == rest;
  }

  lemma SlashFirst(s: string)
    ensures Components("/" + s) == Components(s)
  {
    assert ("/" + s)[1..] == s;
  }

  // The parts of a path put together from parts are those parts.
  lemma {:induction false} ComponentsOfJoin(parts: seq<string>)
    requires forall i :: 0 <= i < |parts| ==> Plain(parts[i])
    ensures Components(Join(parts)) == parts
  {
    if parts != [] {
      var word, rest := parts[0], Join(parts[1..]);
      ComponentsOfJoin(parts[1..]);
      assert Join(parts) == "/" + (word + rest);
      SlashFirst(word + rest);
      FirstWord(word, rest);
      assert [word] + parts[1..] == parts;
    }
  }

  // skip_slash
  method SkipSlash(path: string, i: nat) returns (j: nat)
    requires i <= |path|
    ensures i <= j <= |path| && (j < |path| ==> path[j] != '/')
    ensures Components(path[j..]) == Components(path[i..])
  {
    j := i;
    while j < |path| && path[j] == '/'
      invariant i <= j <= |path| && Components(path[j..]) == Components(path[i..])
    {
      assert path[j..][1..] == path[j + 1..];
      j := j + 1;
    }
  }

  // The inner loop of walk_path: the end of the name that starts at i.
  method NameEnd(path: string, i: nat) returns (j: nat)
    requires i < |path| && path[i] != '/'
    ensures i < j <= |path| && Components(path[i..]) == [path[i..j]] + Components(path[j..])
  {
    j := i;
    while j < |path| && path[j] != '/'
      invariant i <= j <= |path| && forall k :: i <= k < j ==> path[k] != '/'
    {
      j := j + 1;
    }
    var s := path[i..];
    WordThenSlash(s, j - i);
    assert s[..j - i] == path[i..j] && s[j - i..] == path[j..];
  }

  // The next name of a path, and where the one after it starts.
  method NextName(path: string, i: nat) returns (name: string, k: nat)
    requires i < |path| && path[i] != '/'
    ensures name != "" && i < k <= |path| && (k < |path| ==> path[k] != '/')
    ensures Components(path[i..]) == [name] + Components(path[k..])
    ensures k == |path| <==> Components(path[k..]) == []
  {
    var j := NameEnd(path, i);
    name := path[i..j];
    k := SkipSlash(path, j);
  }
}
