/** Resolution of DOS paths against a current directory, and the path text a directory prints as. */
module DosPaths {
  import opened Words

  datatype Result = Resolved(components: seq<string>) | EmptyPath | Escapes

  /** Letters are folded to upper case in ASCII. */
  function UpperChar(c: char): char {
    if 'a' <= c <= 'z' then (c as int - 32) as char else c
  }

  function Upper(s: string): (r: string)
    ensures |r| == |s| && forall i | 0 <= i < |r| :: r[i] == UpperChar(s[i])
  {
    seq(|s|, i requires 0 <= i < |s| => UpperChar(s[i]))
  }

  function BackslashChar(c: char): char {
    if c == '/' then '\\' else c
  }

  function Backslashed(s: string): (r: string)
    ensures |r| == |s| && forall i | 0 <= i < |r| :: r[i] == BackslashChar(s[i])
  {
    seq(|s|, i requires 0 <= i < |s| => BackslashChar(s[i]))
  }

  /** One path part has ended: it names a component, stays, or goes up, which the root refuses. */
  function Close(components: seq<string>, part: string): Option<seq<string>> {
    if part == "" || part == "." then Some(components)
    else if part == ".." then if components == [] then None else Some(components[..|components| - 1])
    else Some(components + [Upper(part)])
  }

  /** The rest of the text, read from inside `part`. The end of the text closes the last part. */
  function Walk(components: seq<string>, part: string, rest: string): Option<seq<string>>
    decreases |rest|
  {
    if rest == "" then Close(components, part)
    else if rest[0] != '\\' then Walk(components, part + [rest[0]], rest[1..])
    else
      var closed := Close(components, part);
      if closed.None? then None else Walk(closed.value, "", rest[1..])
  }

  /** Where the components begin, and whether they start at the root. */
  function Start(path: string): (nat, bool) {
    if |path| >= 2 && path[1] == ':' then
      if |path| > 2 && path[2] == '\\' then (3, true) else (2, false)
    else if path != "" && path[0] == '\\' then (1, true)
    else (0, false)
  }

  function ToResult(r: Option<seq<string>>): Result {
    if r.None? then Escapes else Resolved(r.value)
  }

  function Resolve(current: seq<string>, path: string): Result {
    var text := Backslashed(path);
    var (start, absolute) := Start(text);
    if text == "" then EmptyPath
    else ToResult(Walk(if absolute then [] else current, "", text[start..]))
  }

  /** The character loop, with the text closed by a final separator. */
  method ResolveGuestPath(current: seq<string>, path: string) returns (r: Result)
    ensures r == Resolve(current, path)
  {
    var text := Backslashed(path);
    if text == "" { return EmptyPath; }
    var start, absolute := 0, false;
    if |text| >= 2 && text[1] == ':' {
      start := 2;
      if start < |text| && text[start] == '\\' {
        absolute := true;
        start := start + 1;
      }
    } else if text[0] == '\\' {
      absolute := true;
      start := 1;
    }
    var components := if absolute then [] else current;
    var part := "";
    ghost var answer := Walk(components, part, text[start..]);
    var index := start;
    while index <= |text|
      invariant start <= index <= |text| + 1
      invariant index <= |text| ==> Walk(components, part, text[index..]) == answer
      invariant index == |text| + 1 ==> answer == Some(components)
    {
      var ch := if index == |text| then '\\' else text[index];
      if index < |text| { assert text[index..][1..] == text[index + 1..]; }
      if ch != '\\' {
        part := part + [ch];
      } else if part == "" || part == "." {
        part := "";
      } else if part == ".." {
        if components == [] { return Escapes; }
        components := components[..|components| - 1];
        part := "";
      } else {
        components := components + [Upper(part)];
        part := "";
      }
      index := index + 1;
    }
    r := Resolved(components);
  }

  /** The text of a directory: its components, each behind a separator; the root is a separator alone. */
  function Build(components: seq<string>): string {
    if components == [] then "\\" else Joined(components)
  }

  function Joined(components: seq<string>): string {
    if components == [] then "" else "\\" + components[0] + Joined(components[1..])
  }

  method BuildDosPath(components: seq<string>) returns (r: string)
    ensures r == Build(components)
  {
    if components == [] { return "\\"; }
    r := "";
    var k := 0;
    while k < |components|
      invariant 0 <= k <= |components| && r + Joined(components[k..]) == Joined(components)
    {
      assert components[k..][1..] == components[k + 1..];
      r := r + "\\" + components[k];
      k := k + 1;
    }
    assert components[k..] == [];
  }

  // ---- Walking in pieces ----

  predicate NoSeparator(s: string) {
    forall i | 0 <= i < |s| :: s[i] != '\\' && s[i] != '/'
  }

  /** Text without a separator only extends the part. */
  lemma {:induction false} WalkPart(components: seq<string>, part: string, name: string, rest: string)
    requires NoSeparator(name)
    ensures Walk(components, part, name + rest) == Walk(components, part + name, rest)
    decreases |name|
  {
    if name == "" {
      assert name + rest == rest && part + name == part;
    } else {
      assert (name + rest)[1..] == name[1..] + rest;
      WalkPart(components, part + [name[0]], name[1..], rest);
      assert part + [name[0]] + name[1..] == part + name;
    }
  }

  /** A walk over two texts with a separator between them is two walks. */
  lemma {:induction false} WalkInTwo(components: seq<string>, part: string, a: string, b: string)
    ensures Walk(components, part, a + "\\" + b) ==
            var first := Walk(components, part, a);
            if first.None? then None else Walk(first.value, "", b)
    decreases |a|
  {
    if a == "" {
      assert a + "\\" + b == "\\" + b && ("\\" + b)[1..] == b;
    } else {
      assert (a + "\\" + b)[1..] == a[1..] + "\\" + b;
      if a[0] != '\\' {
        WalkInTwo(components, part + [a[0]], a[1..], b);
      } else {
        var closed := Close(components, part);
        if closed.Some? { WalkInTwo(closed.value, "", a[1..], b); }
      }
    }
  }

  // ---- What is accepted ----

  /** A component as the resolver produces it: in upper case, as far as ASCII goes. */
  predicate IsName(s: string) {
    s != "" && s != "." && s != ".." && '\\' !in s && forall i | 0 <= i < |s| :: !('a' <= s[i] <= 'z')
  }

  /** Only letters change case, so text without letters was the same before. */
  lemma UpperOfPlain(s: string, t: string)
    requires forall i | 0 <= i < |t| :: !('A' <= t[i] <= 'Z')
    ensures Upper(s) == t ==> s == t
  {
    if Upper(s) == t {
      forall i | 0 <= i < |s| ensures s[i] == t[i] {
        assert t[i] == UpperChar(s[i]);
      }
    }
  }

  lemma UpperIsName(s: string)
    requires s != "" && s != "." && s != ".." && '\\' !in s
    ensures IsName(Upper(s))
  {
    var u := Upper(s);
    UpperOfPlain(s, ".");
    UpperOfPlain(s, "..");
    forall i | 0 <= i < |u| ensures !('a' <= u[i] <= 'z') && u[i] != '\\' {
      assert s[i] in s;
    }
  }

  lemma {:induction false} WalkGivesNames(components: seq<string>, part: string, rest: string)
    requires (forall c <- components :: IsName(c)) && '\\' !in part && Walk(components, part, rest).Some?
    ensures forall c <- Walk(components, part, rest).value :: IsName(c)
    decreases |rest|
  {
    hide IsName, Upper;
    if part != "" && part != "." && part != ".." { UpperIsName(part); }
    if rest != "" {
      if rest[0] != '\\' {
        WalkGivesNames(components, part + [rest[0]], rest[1..]);
      } else {
        var closed := Close(components, part);
        assert forall c <- closed.value :: IsName(c);
        WalkGivesNames(closed.value, "", rest[1..]);
      }
    }
  }

  /** Below a well-formed directory an accepted path names proper components only: no ".", no "..", nothing empty. */
  lemma AcceptedNamesOnly(current: seq<string>, path: string)
    requires (forall c <- current :: IsName(c)) && Resolve(current, path).Resolved?
    ensures forall c <- Resolve(current, path).components :: IsName(c)
  {
    hide IsName;
    var text := Backslashed(path);
    WalkGivesNames(if Start(text).1 then [] else current, "", text[Start(text).0..]);
  }

  // ---- Printing and resolving ----

  /** A name that the separators in a path do not split. */
  predicate IsComponent(s: string) {
    IsName(s) && '/' !in s
  }

  lemma ComponentIsUnsplit(s: string)
    requires IsComponent(s)
    ensures NoSeparator(s) && s != ""
  {
  }

  lemma WalkEnd(components: seq<string>, part: string)
    ensures Walk(components, part, "") == Close(components, part)
  {
  }

  lemma WalkSeparator(components: seq<string>, part: string, rest: string)
    ensures Walk(components, part, "\\" + rest) ==
            if Close(components, part).None? then None else Walk(Close(components, part).value, "", rest)
  {
    assert ("\\" + rest)[1..] == rest;
  }

  lemma WalkName(components: seq<string>, name: string, rest: string)
    requires NoSeparator(name)
    ensures Walk(components, "", "\\" + (name + rest)) == Walk(components, name, rest)
  {
    hide Walk;
    WalkSeparator(components, "", name + rest);
    WalkPart(components, "", name, rest);
    assert "" + name == name;
  }

  lemma JoinedSplit(components: seq<string>)
    requires components != []
    ensures Joined(components) == "\\" + (components[0] + Joined(components[1..]))
  {
  }

  lemma Regroup(before: seq<string>, c: string, tail: seq<string>)
    ensures tail == [] ==> before + ([c] + tail) == before + [c]
    ensures tail != [] ==> before + [c] + ([tail[0]] + tail[1..]) == before + ([c] + tail)
  {
  }

  lemma FirstAndRest(components: seq<string>)
    requires components != [] && forall c <- components :: IsComponent(c)
    ensures IsComponent(components[0]) && NoSeparator(components[0]) && forall c <- components[1..] :: IsComponent(c)
    ensures [components[0]] + components[1..] == components
  {
    ComponentIsUnsplit(components[0]);
  }

  lemma {:induction false} WalkJoined(before: seq<string>, components: seq<string>)
    requires forall c <- components :: IsComponent(c)
    ensures Walk(before, "", Joined(components)) == Some(before + components)
  {
    hide IsName, Walk, NoSeparator, Joined;
    if components == [] {
      NothingJoined();
      WalkEnd(before, "");
      assert before + components == before;
    } else {
      FirstAndRest(components);
      JoinedSplit(components);
      WalkName(before, components[0], Joined(components[1..]));
      WalkNamed(before, components[0], components[1..]);
    }
  }

  lemma NothingJoined()
    ensures Joined([]) == ""
  {
  }

  lemma CloseName(before: seq<string>, c: string)
    requires IsComponent(c)
    ensures Close(before, c) == Some(before + [c])
  {
    assert Upper(c) == c;
  }

  /** A complete name followed by more joined components is closed as it stands. */
  lemma {:induction false} WalkNamed(before: seq<string>, c: string, tail: seq<string>)
    requires IsComponent(c) && forall d <- tail :: IsComponent(d)
    ensures Walk(before, c, Joined(tail)) == Some(before + ([c] + tail))
    decreases |tail|
  {
    hide IsName, Upper, Walk, Close, NoSeparator, Joined;
    CloseName(before, c);
    Regroup(before, c, tail);
    if tail == [] {
      NothingJoined();
      WalkEnd(before, c);
    } else {
      FirstAndRest(tail);
      JoinedSplit(tail);
      WalkCloses(before, c, tail[0], Joined(tail[1..]));
      WalkNamed(before + [c], tail[0], tail[1..]);
    }
  }

  lemma WalkCloses(before: seq<string>, c: string, name: string, rest: string)
    requires IsComponent(c) && NoSeparator(name)
    ensures Walk(before, c, "\\" + (name + rest)) == Walk(before + [c], name, rest)
  {
    hide Walk, Close, IsName, NoSeparator;
    CloseName(before, c);
    WalkSeparator(before, c, name + rest);
    WalkPart(before + [c], "", name, rest);
    assert "" + name == name;
  }

  predicate LeadingColon(components: seq<string>) {
    components != [] && components[0] != "" && components[0][0] == ':'
  }

  lemma {:induction false} JoinedHasNoSlash(components: seq<string>)
    requires forall c <- components :: '/' !in c
    ensures Backslashed(Joined(components)) == Joined(components)
  {
    if components != [] {
      var c, rest := components[0], Joined(components[1..]);
      assert c in components && forall d <- components[1..] :: d in components;
      JoinedHasNoSlash(components[1..]);
      var text := Joined(components);
      assert text == "\\" + c + rest;
      forall i | 0 <= i < |text| ensures BackslashChar(text[i]) == text[i] {
        if 1 <= i < 1 + |c| {
          assert text[i] == c[i - 1] && c[i - 1] in c;
        } else if i >= 1 + |c| {
          assert text[i] == rest[i - 1 - |c|] == Backslashed(rest)[i - 1 - |c|];
        }
      }
    }
  }

  /** A directory whose first component does not look like a drive resolves to itself from anywhere. */
  lemma PrintedResolves(current: seq<string>, components: seq<string>)
    requires forall c <- components :: IsComponent(c)
    requires !LeadingColon(components)
    ensures Resolve(current, Build(components)) == Resolved(components)
  {
    hide IsName;
    var text := Build(components);
    if components == [] {
      assert Backslashed(text) == text && text[1..] == "";
    } else {
      assert components[0] in components;
      ComponentIsUnsplit(components[0]);
      JoinedHasNoSlash(components);
      assert text[1] == components[0][0];
      WalkJoined([], components);
      assert [] + components == components;
    }
  }

  /** What the resolver makes of a directory with a leading colon: the first two characters go for a drive. */
  lemma ColonText(components: seq<string>)
    requires (forall c <- components :: IsComponent(c)) && LeadingColon(components)
    ensures var text, name, rest := Build(components), components[0][1..], Joined(components[1..]);
            && Backslashed(text) == text && |text| >= 2 && text[2..] == name + rest
            && (rest != "" ==> rest[0] == '\\')
            && Start(text) == if name == "" && rest != "" then (3, true) else (2, false)
  {
    hide IsName;
    var c, rest, text := components[0], Joined(components[1..]), Build(components);
    assert c in components;
    JoinedHasNoSlash(components);
    assert text == "\\" + c + rest && text[1] == ':' && text[2..] == c[1..] + rest;
    if c[1..] != "" {
      ComponentIsUnsplit(c);
      assert text[2] == c[1];
    } else if rest != "" {
      assert text[2] == rest[0];
    }
  }

  /** Walking the text behind the supposed drive does not lead back to the directory. */
  lemma ColonWalk(components: seq<string>)
    requires (forall c <- components :: IsComponent(c)) && LeadingColon(components) && components[0] != ":"
    ensures Walk([], "", components[0][1..] + Joined(components[1..])) != Some(components)
  {
    hide IsName, Upper;
    var c, tail := components[0], components[1..];
    var name := c[1..];
    assert c in components && forall d <- tail :: d in components;
    ComponentIsUnsplit(c);
    NameIsUnsplit(c);
    WalkPart([], "", name, Joined(tail));
    assert "" + name == name;
    if name == "." || name == ".." {
      WalkJoined([], tail);
      assert [] + tail == tail;
      if tail != [] { assert Joined(tail)[0] == '\\'; }
    } else {
      DroppedColon(c);
      WalkNamed([], name, tail);
      assert ([] + ([name] + tail))[0] == name;
    }
  }

  /** From the root, a directory with a leading colon does not resolve to itself. */
  lemma ColonIsTakenForADrive(components: seq<string>)
    requires (forall c <- components :: IsComponent(c)) && LeadingColon(components)
    ensures Resolve([], Build(components)) != Resolved(components)
  {
    hide IsName, Start, Build, Backslashed;
    ColonText(components);
    var text, tail := Build(components), components[1..];
    if components[0] != ":" {
      hide Walk;
      ColonWalk(components);
    } else {
      assert forall d <- tail :: d in components;
      assert components[0][1..] + Joined(tail) == Joined(tail);
      WalkJoined([], tail);
      assert [] + tail == tail;
      if tail != [] { assert text[3..] == text[2..][1..]; }
    }
  }

  lemma NameIsUnsplit(c: string)
    requires NoSeparator(c) && c != ""
    ensures NoSeparator(c[1..])
  {
  }

  lemma DroppedColon(c: string)
    requires IsComponent(c) && |c| > 1 && c[1..] != "." && c[1..] != ".."
    ensures IsComponent(c[1..])
  {
    var name := c[1..];
    assert forall i | 0 <= i < |name| :: name[i] == c[i + 1];
  }

  /** A directory resolves to itself from every current directory exactly when its first component has no leading colon. */
  lemma PrintedRoundTrip(components: seq<string>)
    requires forall c <- components :: IsComponent(c)
    ensures (forall current :: Resolve(current, Build(components)) == Resolved(components)) <==>
            !LeadingColon(components)
  {
    hide IsName, Resolve, Build;
    if !LeadingColon(components) {
      forall current ensures Resolve(current, Build(components)) == Resolved(components) {
        PrintedResolves(current, components);
      }
    } else {
      ColonIsTakenForADrive(components);
    }
  }

  // ---- Resolving in steps ----

  predicate BareDrive(p: string) {
    |p| == 2 && p[1] == ':'
  }

  /** The path is relative and names no drive. */
  predicate Relative(q: string) {
    q != "" && Start(Backslashed(q)) == (0, false)
  }

  lemma JoinedText(p: string, q: string)
    ensures Backslashed(p + "\\" + q) == Backslashed(p) + "\\" + Backslashed(q)
  {
  }

  /** The start of the longer path is that of `p`, unless `p` is a bare drive. */
  lemma SameStart(pt: string, qt: string)
    requires pt != "" && !BareDrive(pt)
    ensures Start(pt + "\\" + qt) == Start(pt) && Start(pt).0 <= |pt|
    ensures (pt + "\\" + qt)[Start(pt).0..] == pt[Start(pt).0..] + "\\" + qt
  {
    assert |pt| == 1 ==> (pt + "\\" + qt)[1] == '\\';
  }

  /** A refusal stays a refusal; otherwise `q` is resolved from where the first path led. */
  function ResolveThen(first: Result, q: string): Result {
    if first.Resolved? then Resolve(first.components, q) else first
  }

  /** Resolving p\q is resolving q from where p leads, including every refusal. */
  lemma ResolvesInSteps(current: seq<string>, p: string, q: string)
    requires p != "" && !BareDrive(p) && Relative(q)
    ensures Resolve(current, p + "\\" + q) == ResolveThen(Resolve(current, p), q)
  {
    hide Walk, Start, Backslashed;
    var pt, qt := Backslashed(p), Backslashed(q);
    JoinedText(p, q);
    assert !BareDrive(pt);
    SameStart(pt, qt);
    assert qt[0..] == qt;
    WalkInTwo(if Start(pt).1 then [] else current, "", pt[Start(pt).0..], qt);
  }

  /** Behind a bare drive the added separator makes the path absolute: the current directory is forgotten. */
  lemma BareDriveForgetsTheDirectory(current: seq<string>, p: string, q: string)
    requires BareDrive(p) && Relative(q)
    ensures Resolve(current, p) == Resolved(current)
    ensures Resolve(current, p + "\\" + q) == Resolve([], q)
  {
    var pt, qt := Backslashed(p), Backslashed(q);
    JoinedText(p, q);
    var text := pt + "\\" + qt;
    assert text[1] == ':' && text[2] == '\\' && text[3..] == qt && qt[0..] == qt && pt[2..] == "";
  }

  // ---- Going down and up ----

  /** A plain component name: no separator, not a dot entry, not a drive. */
  predicate IsPlain(name: string) {
    NoSeparator(name) && name != "" && name != "." && name != ".." && !(|name| >= 2 && name[1] == ':')
  }

  lemma OnePart(current: seq<string>, name: string)
    requires NoSeparator(name) && name != "" && !(|name| >= 2 && name[1] == ':')
    ensures Relative(name) && Resolve(current, name) == ToResult(Close(current, name))
  {
    assert Backslashed(name) == name && name[0..] == name + "" && "" + name == name;
    WalkPart(current, "", name, "");
  }

  function Parent(r: Result): Result {
    if !r.Resolved? then r else if r.components == [] then Escapes else Resolved(r.components[..|r.components| - 1])
  }

  /** Where ".." behind a path leads: to the parent of where the path leads, and nowhere from the root. */
  lemma DotDotIsTheParent(current: seq<string>, p: string)
    requires p != "" && !BareDrive(p)
    ensures Resolve(current, p + "\\..") == Parent(Resolve(current, p))
    ensures Resolve(current, "..") == Parent(Resolved(current)) && Resolve(current, p + "\\.") == Resolve(current, p)
  {
    hide Resolve, Relative, BareDrive;
    OnePart(current, "..");
    OnePart(current, ".");
    assert p + "\\.." == p + "\\" + ".." && p + "\\." == p + "\\" + ".";
    ResolvesInSteps(current, p, "..");
    ResolvesInSteps(current, p, ".");
    var r := Resolve(current, p);
    if r.Resolved? {
      OnePart(r.components, "..");
      OnePart(r.components, ".");
    }
  }

  /** A name behind a path is one component more, and ".." takes back exactly that one. */
  lemma ChildAndBack(current: seq<string>, p: string, name: string)
    requires p != "" && !BareDrive(p) && IsPlain(name)
    ensures var r := Resolve(current, p);
            && Resolve(current, p + "\\" + name) == (if r.Resolved? then Resolved(r.components + [Upper(name)]) else r)
            && Resolve(current, p + "\\" + name + "\\..") == r
  {
    hide Resolve, Relative, Upper;
    OnePart(current, name);
    ResolvesInSteps(current, p, name);
    var r := Resolve(current, p);
    if r.Resolved? { OnePart(r.components, name); }
    DotDotIsTheParent(current, p + "\\" + name);
  }

  // ---- Case and separators ----

  /** The same character up to the case of an ASCII letter or the slant of a separator. */
  predicate Alike(a: char, b: char) {
    || a == b
    || ('a' <= a <= 'z' && b as int == a as int - 32) || ('a' <= b <= 'z' && a as int == b as int - 32)
    || (a == '/' && b == '\\') || (a == '\\' && b == '/')
  }

  predicate AllAlike(p: string, q: string) {
    |p| == |q| && forall i | 0 <= i < |p| :: Alike(p[i], q[i])
  }

  /** Alike parts without separators close alike. */
  lemma ClosesAlike(components: seq<string>, part: string, part': string)
    requires AllAlike(part, part') && NoSeparator(part) && NoSeparator(part')
    ensures Close(components, part) == Close(components, part')
  {
    assert Upper(part) == Upper(part');
    UpperOfPlain(part, ".");
    UpperOfPlain(part, "..");
    UpperOfPlain(part', ".");
    UpperOfPlain(part', "..");
    if part == "." || part == ".." || part' == "." || part' == ".." { assert part == part'; }
  }

  lemma {:induction false} WalksAlike(components: seq<string>, part: string, part': string, rest: string, rest': string)
    requires AllAlike(part, part') && NoSeparator(part) && NoSeparator(part')
    requires AllAlike(rest, rest') && '/' !in rest && '/' !in rest'
    ensures Walk(components, part, rest) == Walk(components, part', rest')
    decreases |rest|
  {
    hide Close, Alike;
    ClosesAlike(components, part, part');
    if rest != "" {
      SeparatorsAlike(rest[0], rest'[0]);
      if rest[0] != '\\' {
        WalksAlike(components, part + [rest[0]], part' + [rest'[0]], rest[1..], rest'[1..]);
      } else {
        var closed := Close(components, part);
        if closed.Some? { WalksAlike(closed.value, "", "", rest[1..], rest'[1..]); }
      }
    }
  }

  lemma SeparatorsAlike(a: char, b: char)
    requires Alike(a, b) && a != '/' && b != '/'
    ensures a == '\\' <==> b == '\\'
    ensures a == ':' <==> b == ':'
  {
  }

  /** Neither the case of letters nor the slant of separators matters. */
  lemma AlikePathsResolveAlike(current: seq<string>, p: string, q: string)
    requires AllAlike(p, q)
    ensures Resolve(current, p) == Resolve(current, q)
  {
    hide Walk;
    var pt, qt := Backslashed(p), Backslashed(q);
    forall i | 0 <= i < |pt| ensures Alike(pt[i], qt[i]) && pt[i] != '/' && qt[i] != '/' {
      SeparatorsAlike(pt[i], qt[i]);
    }
    assert forall i | 0 <= i < |pt| :: (pt[i] == '\\' <==> qt[i] == '\\') && (pt[i] == ':' <==> qt[i] == ':');
    var (start, absolute) := Start(pt);
    WalksAlike(if absolute then [] else current, "", "", pt[start..], qt[start..]);
  }

  lemma OneName(current: seq<string>)
    ensures Relative("B") && Resolve(current, "B") == Resolved(current + ["B"])
  {
    OnePart(current, "B");
    assert Upper("B") == "B";
  }

  /** Resolving in steps is right for every directory and every relative rest exactly when `p` is not a bare drive. */
  lemma ResolvesInStepsUnlessBareDrive(p: string)
    requires p != ""
    ensures (forall current, q | Relative(q) :: Resolve(current, p + "\\" + q) == ResolveThen(Resolve(current, p), q)) <==>
            !BareDrive(p)
  {
    hide Resolve, Relative, BareDrive;
    if BareDrive(p) {
      OneName([]);
      OneName(["A"]);
      BareDriveForgetsTheDirectory(["A"], p, "B");
      assert Resolve(["A"], p + "\\" + "B") == Resolved([] + ["B"]);
    } else {
      forall current, q | Relative(q) ensures Resolve(current, p + "\\" + q) == ResolveThen(Resolve(current, p), q) {
        ResolvesInSteps(current, p, q);
      }
    }
  }
}
