/** Go's path.Join for rooted paths, which is how valonctl builds etcd keys. */
module Paths {
  import opened Text

  /** Drops empty and "." components and lets ".." remove the component before it. */
  function Resolve(parts: seq<string>, kept: seq<string>): seq<string> {
    if parts == [] then kept
    else if parts[0] == "" || parts[0] == "." then Resolve(parts[1..], kept)
    else if parts[0] == ".." then Resolve(parts[1..], if kept == [] then [] else kept[..|kept| - 1])
    else Resolve(parts[1..], kept + [parts[0]])
  }

  /** path.Clean of a path that starts with a slash. */
  function CleanRooted(s: string): string
    requires HasPrefix(s, "/")
  {
    "/" + Join(Resolve(Split(s, '/'), []), '/')
  }

  /** path.Join when the first element is a rooted path. */
  function PathJoin(elems: seq<string>): string
    requires |elems| > 0 && HasPrefix(elems[0], "/")
  {
    var s := Join(elems, '/');
    assert s[0] == elems[0][0..1][0];
    assert s[0..1] == "/";
    CleanRooted(s)
  }

  function NonEmpty(parts: seq<string>): seq<string> {
    if parts == [] then []
    else if parts[0] == "" then NonEmpty(parts[1..])
    else [parts[0]] + NonEmpty(parts[1..])
  }

  predicate NoDots(parts: seq<string>) {
    forall i :: 0 <= i < |parts| ==> parts[i] != "." && parts[i] != ".."
  }

  predicate AllNonEmpty(parts: seq<string>) {
    forall i :: 0 <= i < |parts| ==> parts[i] != ""
  }

  /** Components that a clean path may have. */
  predicate Names(parts: seq<string>) {
    AllNonEmpty(parts) && NoDots(parts) && forall p :: p in parts ==> '/' !in p
  }

  lemma NamesConcat(a: seq<string>, b: seq<string>)
    requires Names(a) && Names(b)
    ensures Names(a + b)
  {
  }

  lemma {:induction false} ResolveWithoutDots(parts: seq<string>, kept: seq<string>)
    requires NoDots(parts)
    ensures Resolve(parts, kept) == kept + NonEmpty(parts)
  {
    if parts != [] {
      if parts[0] == "" {
        ResolveWithoutDots(parts[1..], kept);
      } else {
        ResolveWithoutDots(parts[1..], kept + [parts[0]]);
      }
    }
  }

  lemma {:induction false} ResolveNames(names: seq<string>, rest: seq<string>, kept: seq<string>)
    requires AllNonEmpty(names) && NoDots(names)
    ensures Resolve(names + rest, kept) == Resolve(rest, kept + names)
  {
    if names == [] {
      assert names + rest == rest && kept + names == kept;
    } else {
      assert (names + rest)[1..] == names[1..] + rest;
      ResolveNames(names[1..], rest, kept + [names[0]]);
      assert kept + [names[0]] + names[1..] == kept + names;
    }
  }

  lemma ResolveUp(rest: seq<string>, kept: seq<string>, last: string)
    ensures Resolve([".."] + rest, kept + [last]) == Resolve(rest, kept)
  {
    assert ([".."] + rest)[1..] == rest && (kept + [last])[..|kept|] == kept;
  }

  lemma ResolveNothing(kept: seq<string>)
    ensures Resolve([], kept) == kept
  {
  }

  /** What is kept are given components that are names. */
  lemma {:induction false} ResolveShape(parts: seq<string>, kept: seq<string>)
    requires AllNonEmpty(kept) && NoDots(kept)
    ensures AllNonEmpty(Resolve(parts, kept)) && NoDots(Resolve(parts, kept))
    ensures forall p :: p in Resolve(parts, kept) ==> p in kept || p in parts
  {
    if parts != [] {
      assert parts == [parts[0]] + parts[1..];
      if parts[0] == "" || parts[0] == "." {
        ResolveShape(parts[1..], kept);
      } else if parts[0] == ".." {
        ResolveShape(parts[1..], if kept == [] then [] else kept[..|kept| - 1]);
      } else {
        ResolveShape(parts[1..], kept + [parts[0]]);
      }
    }
  }

  lemma {:induction false} NonEmptyIdentity(parts: seq<string>)
    ensures NonEmpty(parts) == parts <==> AllNonEmpty(parts)
    ensures |NonEmpty(parts)| <= |parts|
    ensures forall p :: p in NonEmpty(parts) <==> p in parts && p != ""
  {
    if parts != [] {
      NonEmptyIdentity(parts[1..]);
      assert parts == [parts[0]] + parts[1..];
      if parts[0] != "" && AllNonEmpty(parts[1..]) {
        assert forall i :: 0 <= i < |parts| ==> parts[i] == (if i == 0 then parts[0] else parts[1..][i - 1]);
      }
      if AllNonEmpty(parts) {
        assert forall i :: 0 <= i < |parts[1..]| ==> parts[1..][i] == parts[i + 1];
      }
    }
  }

  lemma {:induction false} NonEmptyConcat(a: seq<string>, b: seq<string>)
    ensures NonEmpty(a + b) == NonEmpty(a) + NonEmpty(b)
  {
    if a == [] {
      assert a + b == b;
    } else {
      assert (a + b)[1..] == a[1..] + b;
      NonEmptyConcat(a[1..], b);
    }
  }

  lemma {:induction false} JoinConcat(a: seq<string>, b: seq<string>, sep: char)
    requires |a| > 0 && |b| > 0
    ensures Join(a + b, sep) == Join(a, sep) + [sep] + Join(b, sep)
  {
    if |a| == 1 {
      assert (a + b)[1..] == b;
    } else {
      assert (a + b)[1..] == a[1..] + b;
      JoinConcat(a[1..], b, sep);
    }
  }

  lemma JoinTwo(a: string, b: string, sep: char)
    ensures Join([a, b], sep) == a + [sep] + b
  {
    assert [a, b][1..] == [b];
  }

  lemma JoinThree(a: string, b: string, c: string, sep: char)
    ensures Join([a, b, c], sep) == a + [sep] + (b + [sep] + c)
  {
    assert [a, b, c][1..] == [b, c];
    JoinTwo(b, c, sep);
  }

  /** Whole characters of a part survive joining. */
  lemma {:induction false} JoinKeepsChars(parts: seq<string>, sep: char, c: char)
    requires exists p :: p in parts && c in p
    ensures c in Join(parts, sep)
  {
    var p :| p in parts && c in p;
    if |parts| > 1 && p != parts[0] {
      assert parts == [parts[0]] + parts[1..];
      assert p in parts[1..];
      JoinKeepsChars(parts[1..], sep, c);
    }
  }

  lemma {:induction false} SplitKeepsChars(s: string, sep: char, c: char)
    requires c in s && c != sep
    ensures exists p :: p in Split(s, sep) && c in p
  {
    var rest := Split(s[1..], sep);
    assert s == [s[0]] + s[1..];
    if c == s[0] {
      assert c in Split(s, sep)[0];
    } else {
      SplitKeepsChars(s[1..], sep, c);
      var p :| p in rest && c in p;
      if s[0] == sep {
        assert p in Split(s, sep);
      } else if p == rest[0] {
        assert c in Split(s, sep)[0];
      } else {
        assert rest == [rest[0]] + rest[1..];
        assert p in rest[1..];
        assert p in Split(s, sep);
      }
    }
  }

  lemma {:induction false} JoinNonEmptyShorter(parts: seq<string>, sep: char)
    ensures |Join(NonEmpty(parts), sep)| <= |Join(parts, sep)|
  {
    if |parts| > 1 {
      JoinNonEmptyShorter(parts[1..], sep);
      var tail := NonEmpty(parts[1..]);
      if parts[0] != "" && tail != [] {
        JoinConcat([parts[0]], tail, sep);
      }
    }
  }

  /** Dropping an empty part drops a separator. */
  lemma {:induction false} JoinSameLength(parts: seq<string>, sep: char)
    requires |parts| > 1 && |Join(NonEmpty(parts), sep)| == |Join(parts, sep)|
    ensures AllNonEmpty(parts)
  {
    var rest, tail := parts[1..], NonEmpty(parts[1..]);
    JoinNonEmptyShorter(rest, sep);
    assert parts == [parts[0]] + rest;
    if parts[0] != "" && tail != [] {
      JoinConcat([parts[0]], tail, sep);
      if |rest| > 1 {
        JoinSameLength(rest, sep);
      } else {
        assert rest == [rest[0]] && rest[0] != "";
      }
      assert forall i :: 1 <= i < |parts| ==> parts[i] == rest[i - 1];
    }
  }

  /** The parts of a path are all non-empty when no slash stands at an end or beside another slash. */
  predicate NoEmptyComponent(s: string) {
    s != "" && s[0] != '/' && s[|s| - 1] != '/' && forall i :: 0 < i < |s| ==> s[i - 1] != '/' || s[i] != '/'
  }

  lemma {:induction false} SplitAllNonEmpty(s: string)
    ensures AllNonEmpty(Split(s, '/')) <==> NoEmptyComponent(s)
  {
    if s == "" {
      assert Split(s, '/')[0] == "";
    } else if s[0] == '/' {
      assert Split(s, '/')[0] == "";
    } else if |s| > 1 {
      var t := s[1..];
      var rest := Split(t, '/');
      var parts := Split(s, '/');
      assert parts == [[s[0]] + rest[0]] + rest[1..];
      assert forall i :: 1 <= i < |parts| ==> parts[i] == rest[i];
      if t[0] == '/' {
        SplitAllNonEmpty(t[1..]);
        var u := t[1..];
        assert rest == [""] + Split(u, '/');
        assert forall i :: 0 <= i < |u| ==> u[i] == s[i + 2];
        assert AllNonEmpty(parts) <==> AllNonEmpty(Split(u, '/')) by {
          assert forall i :: 0 <= i < |Split(u, '/')| ==> Split(u, '/')[i] == parts[i + 1];
        }
        if NoEmptyComponent(u) { NoEmptyTail(s, 2); }
        if NoEmptyComponent(s) { assert s[1] == '/'; NoEmptyHead(s, 2); }
      } else {
        SplitAllNonEmpty(t);
        SplitHead(t);
        assert AllNonEmpty(parts) <==> AllNonEmpty(rest);
        if NoEmptyComponent(t) { NoEmptyTail(s, 1); }
        if NoEmptyComponent(s) { NoEmptyHead(s, 1); }
      }
    } else {
      assert s == [s[0]];
      SplitPlain(s, '/');
    }
  }

  lemma SplitHead(s: string)
    requires s != "" && s[0] != '/'
    ensures Split(s, '/')[0] != ""
  {
  }

  lemma NoEmptyTail(s: string, n: nat)
    requires 1 <= n <= 2 && n < |s| && s[0] != '/' && (n == 2 ==> s[1] == '/')
    requires NoEmptyComponent(s[n..])
    ensures NoEmptyComponent(s)
  {
    var u := s[n..];
    assert s[|s| - 1] == u[|u| - 1];
    forall i | 0 < i < |s|
      ensures s[i - 1] != '/' || s[i] != '/'
    {
      if i > n { assert s[i] == u[i - n] && s[i - 1] == u[i - n - 1]; }
      if i == n { assert s[i] == u[0]; }
    }
  }

  lemma NoEmptyHead(s: string, n: nat)
    requires 1 <= n <= 2 && NoEmptyComponent(s) && n <= |s| && (n == 1 ==> |s| > 1 && s[1] != '/')
    requires n == 2 ==> s[1] == '/'
    ensures NoEmptyComponent(s[n..])
  {
    var u := s[n..];
    if n == 2 { assert |s| > 2; assert s[1] == '/' && s[2] != '/'; }
    assert u[|u| - 1] == s[|s| - 1];
    forall i | 0 < i < |u|
      ensures u[i - 1] != '/' || u[i] != '/'
    {
      assert u[i] == s[i + n] && u[i - 1] == s[i + n - 1];
    }
  }

  /** Cleaning a path without dot components drops its empty components. */
  lemma CleanDropsEmpty(parts: seq<string>)
    requires |parts| > 0 && NoDots(parts) && forall p :: p in parts ==> '/' !in p
    ensures HasPrefix("/" + Join(parts, '/'), "/")
    ensures CleanRooted("/" + Join(parts, '/')) == "/" + Join(NonEmpty(parts), '/')
  {
    hide Join, Split, Resolve;
    var rest := Join(parts, '/');
    var s := "/" + rest;
    assert s[0..1] == "/";
    SplitJoin(parts, '/');
    SplitAppend("", rest, '/');
    assert "" + ['/'] + rest == s;
    var all := [""] + parts;
    assert NoDots(all);
    ResolveWithoutDots(all, []);
    NonEmptyConcat([""], parts);
    assert NonEmpty([""]) == [];
    assert [] + NonEmpty(all) == NonEmpty(parts);
  }

  /** A path whose components are proper names is already clean. */
  lemma CleanProperPath(parts: seq<string>)
    requires |parts| > 0 && Names(parts)
    ensures HasPrefix("/" + Join(parts, '/'), "/")
    ensures CleanRooted("/" + Join(parts, '/')) == "/" + Join(parts, '/')
  {
    CleanDropsEmpty(parts);
    NonEmptyIdentity(parts);
  }
}
