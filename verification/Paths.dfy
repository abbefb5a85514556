/**
 * `VFSPath` of VFS.cpp, as built without WIN32: splitting and printing, collapsing "."
 * and "..", and turning absolute paths relative and back.
 */
module Paths {
  import opened Text

  datatype VFSPath = VFSPath(relative: bool, path: seq<string>)

  /** `operator/`. */
  function Slash(p: VFSPath, q: VFSPath): VFSPath {
    VFSPath(p.relative, p.path + q.path)
  }

  predicate EndsInColon(s: string) {
    s != "" && s[|s| - 1] == ':'
  }

  /** A path such as `C:/`, which prints and climbs specially. */
  predicate IsDriveRoot(p: VFSPath) {
    !p.relative && |p.path| == 1 && EndsInColon(p.path[0])
  }

  function GetParent(p: VFSPath): VFSPath {
    if p.path == [] then VFSPath(false, [])
    else if IsDriveRoot(p) then p
    else VFSPath(p.relative, p.path[..|p.path| - 1])
  }

  function GetFileName(p: VFSPath): string {
    if p.path == [] then "" else p.path[|p.path| - 1]
  }

  // ----- Collapsing -----

  /** What one component does to the stack of kept components. */
  function Push(stack: seq<string>, item: string): seq<string> {
    if item == ".." then (if stack == [] then [] else stack[..|stack| - 1])
    else if item == "." then stack
    else stack + [item]
  }

  function Fold(stack: seq<string>, items: seq<string>): seq<string> {
    if items == [] then stack else Push(Fold(stack, items[..|items| - 1]), items[|items| - 1])
  }

  function Collapsed(p: VFSPath): VFSPath {
    VFSPath(p.relative, Fold([], p.path))
  }

  /** `CollapseRelativeParents`. */
  method CollapseRelativeParents(p: VFSPath) returns (r: VFSPath)
    ensures r == Collapsed(p)
  {
    var parts := [];
    for i := 0 to |p.path|
      invariant parts == Fold([], p.path[..i])
    {
      var item := p.path[i];
      assert p.path[..i + 1][..i] == p.path[..i];
      if item == ".." {
        if parts != [] {
          parts := parts[..|parts| - 1];
        }
      } else if item != "." {
        parts := parts + [item];
      }
    }
    assert p.path[..|p.path|] == p.path;
    r := VFSPath(p.relative, parts);
  }

  predicate Clean(items: seq<string>) {
    "." !in items && ".." !in items
  }

  lemma {:induction false} FoldKeepsClean(stack: seq<string>, items: seq<string>)
    requires Clean(stack)
    ensures Clean(Fold(stack, items))
  {
    if items != [] {
      FoldKeepsClean(stack, items[..|items| - 1]);
    }
  }

  lemma {:induction false} FoldClean(stack: seq<string>, items: seq<string>)
    requires Clean(items)
    ensures Fold(stack, items) == stack + items
  {
    if items != [] {
      var n := |items| - 1;
      FoldClean(stack, items[..n]);
      assert items[n] in items;
      assert stack + items == stack + items[..n] + [items[n]];
    }
  }

  lemma {:induction false} FoldConcat(stack: seq<string>, a: seq<string>, b: seq<string>)
    ensures Fold(stack, a + b) == Fold(Fold(stack, a), b)
  {
    if b == [] {
      assert a + b == a;
    } else {
      var n := |b| - 1;
      FoldConcat(stack, a, b[..n]);
      assert (a + b)[..|a + b| - 1] == a + b[..n];
    }
  }

  /** Collapsing leaves no "." or "..", and a second time changes nothing. */
  lemma CollapseIsClean(p: VFSPath)
    ensures Clean(Collapsed(p).path) && Collapsed(Collapsed(p)) == Collapsed(p)
  {
    FoldKeepsClean([], p.path);
    FoldClean([], Fold([], p.path));
  }

  /** A path is its own collapse exactly when it has neither. */
  lemma CollapseFixesClean(p: VFSPath)
    ensures Collapsed(p) == p <==> Clean(p.path)
  {
    CollapseIsClean(p);
    if Clean(p.path) {
      FoldClean([], p.path);
    }
  }

  /** The left operand of `/` may be collapsed first. */
  lemma CollapseSlash(p: VFSPath, q: VFSPath)
    ensures Collapsed(Slash(p, q)) == Collapsed(Slash(Collapsed(p), q))
  {
    FoldConcat([], p.path, q.path);
    FoldConcat([], Fold([], p.path), q.path);
    FoldKeepsClean([], p.path);
    FoldClean([], Fold([], p.path));
    assert [] + Fold([], p.path) == Fold([], p.path);
  }

  /** Climbing above the root stays at the root. */
  lemma {:induction false} CollapseAtRoot(n: nat, p: VFSPath)
    ensures Fold([], Ups(n)) == [] && Collapsed(VFSPath(p.relative, Ups(n) + p.path)) == Collapsed(p)
  {
    if n > 0 {
      CollapseAtRoot(n - 1, p);
      assert Ups(n)[..n - 1] == Ups(n - 1);
    }
    FoldConcat([], Ups(n), p.path);
  }

  /** A "." anywhere goes without trace. */
  lemma DotIgnored(relative: bool, a: seq<string>, b: seq<string>)
    ensures Collapsed(VFSPath(relative, a + ["."] + b)) == Collapsed(VFSPath(relative, a + b))
  {
    FoldConcat([], a + ["."], b);
    FoldConcat([], a, ["."]);
    FoldConcat([], a, b);
    FoldOne(Fold([], a), ".");
  }

  /** A ".." takes exactly the name before it away. */
  lemma ParentCancels(relative: bool, a: seq<string>, c: string, b: seq<string>)
    requires c != "." && c != ".."
    ensures Collapsed(VFSPath(relative, a + [c, ".."] + b)) == Collapsed(VFSPath(relative, a + b))
  {
    FoldConcat([], a + [c, ".."], b);
    FoldConcat([], a, [c, ".."]);
    FoldConcat([], a, b);
    FoldConcat(Fold([], a), [c], [".."]);
    assert [c, ".."] == [c] + [".."];
    FoldOne(Fold([], a), c);
    FoldOne(Fold([], a) + [c], "..");
  }

  lemma FoldOne(stack: seq<string>, item: string)
    ensures Fold(stack, [item]) == Push(stack, item)
  {
    assert [item][..0] == [];
    assert Fold(stack, []) == stack;
  }

  // ----- Splitting text -----

  /** The nonempty pieces between slashes. */
  function SplitPath(s: string): seq<string> {
    var i := Find(s, '/');
    (if i > 0 then [s[..i]] else []) + (if i < |s| then SplitPath(s[i + 1..]) else [])
  }

  predicate Component(s: string) {
    s != "" && '/' !in s
  }

  predicate Components(items: seq<string>) {
    forall i :: 0 <= i < |items| ==> Component(items[i])
  }

  lemma {:induction false} SplitGivesComponents(s: string)
    ensures Components(SplitPath(s))
  {
    var i := Find(s, '/');
    if i < |s| {
      SplitGivesComponents(s[i + 1..]);
    }
  }

  lemma SplitFirst(a: string, rest: string)
    requires '/' !in a
    ensures SplitPath(a + "/" + rest) == (if a == "" then [] else [a]) + SplitPath(rest)
  {
    var s := a + "/" + rest;
    FindAfter(a, '/', rest);
    assert s[..|a|] == a && s[|a| + 1..] == rest;
  }

  lemma SplitEmpty()
    ensures SplitPath("") == []
  {
  }

  lemma SplitOne(a: string)
    requires Component(a)
    ensures SplitPath(a) == [a]
  {
    FindNone(a, '/');
    assert a[..|a|] == a;
  }

  /** Splitting text joined by a slash splits both sides: empty pieces vanish, wherever they are. */
  lemma {:induction false} SplitJoined(a: string, b: string)
    ensures SplitPath(a + "/" + b) == SplitPath(a) + SplitPath(b)
    decreases |a|
  {
    hide SplitPath;
    var i := Find(a, '/');
    if i == |a| {
      SplitFirst(a, b);
      if a == "" {
        SplitEmpty();
      } else {
        SplitOne(a);
      }
    } else {
      var head, tail := a[..i], a[i + 1..];
      assert a == head + "/" + tail;
      SplitJoined(tail, b);
      SplitFirst(head, tail);
      SplitFirst(head, tail + "/" + b);
      assert head + "/" + (tail + "/" + b) == a + "/" + b;
    }
  }

  /** The loop of `VFSPath::SplitPath`: finished parts, and the part being read. */
  lemma SplitSteps(cur: string, s: string)
    requires '/' !in cur && s != ""
    ensures s[0] == '/' ==> SplitPath(cur + s) == (if cur == "" then [] else [cur]) + SplitPath(s[1..])
    ensures s[0] != '/' ==> cur + s == (cur + [s[0]]) + s[1..] && '/' !in cur + [s[0]]
  {
    hide SplitPath;
    if s[0] == '/' {
      SplitFirst(cur, s[1..]);
      assert cur + s == cur + "/" + s[1..];
    }
  }

  method SplitPathLoop(path: string) returns (parts: seq<string>)
    ensures parts == SplitPath(path)
  {
    hide SplitPath;
    parts := [];
    var curPath := "";
    ghost var left := SplitPath(path);
    assert "" + path[0..] == path;
    for i := 0 to |path|
      invariant '/' !in curPath
      invariant left == SplitPath(curPath + path[i..])
      invariant SplitPath(path) == parts + left
    {
      assert path[i..][1..] == path[i + 1..];
      SplitSteps(curPath, path[i..]);
      if path[i] == '/' {
        if curPath != "" {
          parts := parts + [curPath];
          left := left[1..];
        }
        curPath := "";
        assert "" + path[i + 1..] == path[i + 1..];
      } else {
        curPath := curPath + [path[i]];
      }
    }
    assert curPath + path[|path|..] == curPath;
    SplitEmpty();
    if curPath != "" {
      SplitOne(curPath);
      parts := parts + [curPath];
    }
  }

  /** The constructor from text. */
  function Parse(s: string): VFSPath {
    var parts := SplitPath(s);
    VFSPath(!(StartsWithSlash(s) || (s != "" && parts != [] && EndsInColon(parts[0]))), parts)
  }

  /** A leading slash makes any text absolute and adds no component; a trailing one changes nothing. */
  lemma ParseSlashes(s: string)
    ensures Parse("/" + s) == VFSPath(false, SplitPath(s))
    ensures s != "" ==> Parse(s + "/") == Parse(s)
  {
    hide SplitPath;
    SplitFirst("", s);
    SplitEmpty();
    assert "" + "/" + s == "/" + s;
    SplitJoined(s, "");
    assert s + "/" + "" == s + "/";
  }

  /** Text that starts with a component is absolute exactly when that ends like a drive. */
  lemma ParseComponent(a: string, rest: string)
    requires Component(a) && (rest == "" || rest[0] == '/')
    ensures Parse(a + rest) == VFSPath(!EndsInColon(a), [a] + SplitPath(rest))
  {
    hide SplitPath;
    SplitEmpty();
    if rest == "" {
      assert a + rest == a;
      SplitOne(a);
    } else {
      SplitFirst(a, rest[1..]);
      SplitFirst("", rest[1..]);
      assert "" + "/" + rest[1..] == rest;
      assert a + "/" + rest[1..] == a + rest;
    }
    assert (a + rest)[0] == a[0];
  }

  predicate StartsWithSlash(s: string) {
    s != "" && s[0] == '/'
  }

  // ----- Printing -----

  function Slashed(items: seq<string>): string {
    if items == [] then "" else "/" + items[0] + Slashed(items[1..])
  }

  function TextOf(p: VFSPath): string {
    if p.path == [] then (if p.relative then "" else "/")
    else if IsDriveRoot(p) then p.path[0] + "/"
    else
      (if EndsInColon(p.path[0]) || p.relative then "" else "/") + p.path[0] + Slashed(p.path[1..])
  }

  lemma {:induction false} SlashedSnoc(items: seq<string>, item: string)
    ensures Slashed(items + [item]) == Slashed(items) + ("/" + item)
  {
    if items == [] {
      assert [item][1..] == [] && [] + [item] == [item];
      assert Slashed([item]) == "/" + item + "";
      assert "" + ("/" + item) == "/" + item;
    } else {
      SlashedSnoc(items[1..], item);
      assert (items + [item])[1..] == items[1..] + [item];
      assert "/" + items[0] + (Slashed(items[1..]) + ("/" + item)) == "/" + items[0] + Slashed(items[1..]) + ("/" + item);
    }
  }

  /** What the first `i` components print as. */
  function Printed(p: VFSPath, i: nat): string
    requires 0 < i <= |p.path|
  {
    (if EndsInColon(p.path[0]) || p.relative then "" else "/") + p.path[0] + Slashed(p.path[1..i])
  }

  lemma PrintedStep(p: VFSPath, i: nat)
    requires i < |p.path|
    ensures i == 0 ==> Printed(p, 1) == (if EndsInColon(p.path[0]) || p.relative then "" else "/") + p.path[0]
    ensures i > 0 ==> Printed(p, i + 1) == Printed(p, i) + "/" + p.path[i]
  {
    assert p.path[1..1] == [];
    if i > 0 {
      assert p.path[1..i + 1] == p.path[1..i] + [p.path[i]];
      SlashedSnoc(p.path[1..i], p.path[i]);
    }
  }

  lemma PrintedAll(p: VFSPath)
    requires p.path != [] && !IsDriveRoot(p)
    ensures TextOf(p) == Printed(p, |p.path|)
  {
    assert p.path[1..|p.path|] == p.path[1..];
  }

  /** `ToString`. */
  method ToString(path: VFSPath) returns (p: string)
    ensures p == TextOf(path)
  {
    if path.path == [] && !path.relative {
      return "/";
    }
    if IsDriveRoot(path) {
      return path.path[0] + "/";
    }
    if path.path != [] {
      PrintedAll(path);
      hide TextOf;
    }
    hide Printed, EndsInColon;
    var first := true;
    p := "";
    for i := 0 to |path.path|
      invariant first == (i == 0)
      invariant p == if i == 0 then "" else Printed(path, i)
    {
      var item := path.path[i];
      PrintedStep(path, i);
      if !(first && EndsInColon(item)) && !(first && path.relative) {
        p := p + "/";
      }
      p := p + item;
      first := false;
    }
  }

  /** The shortest paths print as they are written. */
  lemma TextOfShort(a: string)
    ensures TextOf(VFSPath(false, [])) == "/" && TextOf(VFSPath(true, [])) == ""
    ensures TextOf(VFSPath(true, [a])) == a
    ensures TextOf(VFSPath(false, [a])) == if EndsInColon(a) then a + "/" else "/" + a
  {
    assert [a][1..] == [];
    assert a + "" == a;
  }

  /** One component more is one slash more, but for the one a drive root already has. */
  lemma TextOfLonger(p: VFSPath, name: string)
    requires p.path != []
    ensures TextOf(VFSPath(p.relative, p.path + [name])) == TextOf(p) + (if IsDriveRoot(p) then "" else "/") + name
  {
    var q := VFSPath(p.relative, p.path + [name]);
    assert q.path[1..] == p.path[1..] + [name];
    SlashedSnoc(p.path[1..], name);
    if IsDriveRoot(p) {
      assert p.path[1..] == [];
      assert Slashed([]) == "";
    }
  }

  lemma SplitSlashed(items: seq<string>)
    requires Components(items)
    ensures SplitPath(Slashed(items)) == items
  {
    hide SplitPath;
    if items == [] {
      SplitEmpty();
    } else {
      SplitAfter(items[0], items[1..]);
      var s := items[0] + Slashed(items[1..]);
      SplitFirst("", s);
      assert Slashed(items) == "" + "/" + s;
      assert items == [items[0]] + items[1..];
    }
  }

  /** A component, then slashed components. */
  lemma {:induction false} SplitAfter(a: string, items: seq<string>)
    requires Component(a) && Components(items)
    ensures SplitPath(a + Slashed(items)) == [a] + items
    decreases |items|
  {
    hide SplitPath;
    if items == [] {
      SplitOne(a);
      assert a + "" == a;
    } else {
      var rest := items[0] + Slashed(items[1..]);
      SplitAfter(items[0], items[1..]);
      SplitFirst(a, rest);
      assert a + Slashed(items) == a + "/" + rest;
    }
  }

  predicate Printable(p: VFSPath) {
    Components(p.path) && !(p.relative && p.path != [] && EndsInColon(p.path[0]))
  }

  /** The components survive printing and parsing when they are components at all. */
  lemma SplitOfText(p: VFSPath)
    requires Components(p.path)
    ensures SplitPath(TextOf(p)) == p.path
  {
    hide SplitPath;
    SplitEmpty();
    if p.path == [] {
      SplitFirst("", "");
      assert "" + "/" + "" == "/";
    } else {
      SplitSlashed(p.path);
      var a, rest := p.path[0], p.path[1..];
      SplitAfter(a, rest);
      assert [a] + rest == p.path;
      SplitFirst(a, "");
      assert a + "/" + "" == a + "/";
      assert "" + a + Slashed(rest) == a + Slashed(rest);
    }
  }

  lemma StartOfText(p: VFSPath)
    requires Components(p.path)
    ensures StartsWithSlash(TextOf(p)) <==>
            !p.relative && (p.path == [] || !EndsInColon(p.path[0]))
    ensures p.path != [] ==> TextOf(p) != ""
  {
    if p.path != [] {
      assert p.path[0][0] in p.path[0];
    }
  }

  /** Printing then parsing restores a path exactly when it is printable. */
  lemma TextRoundTrip(p: VFSPath)
    ensures Parse(TextOf(p)) == p <==> Printable(p)
  {
    hide SplitPath, TextOf;
    if Components(p.path) {
      SplitOfText(p);
      StartOfText(p);
    } else {
      SplitGivesComponents(TextOf(p));
    }
  }

  // ----- Parent and file name -----

  /** `p.GetParent() / p.GetFileName()`; the operator parses the name as a path. */
  function Rejoined(p: VFSPath): VFSPath {
    Slash(GetParent(p), Parse(GetFileName(p)))
  }

  lemma {:induction false} SplitOfColon(s: string)
    requires EndsInColon(s)
    ensures SplitPath(s) != []
  {
    if s[0] == '/' {
      SplitOfColon(s[1..]);
    }
  }

  /** That is the path again but for drive roots, the empty relative path, and a last component that is none. */
  lemma RejoinExact(p: VFSPath)
    ensures Rejoined(p) == p
            <==> if p.path == [] then !p.relative else Component(GetFileName(p)) && !IsDriveRoot(p)
    ensures Rejoined(p).path == p.path
            <==> p.path == [] || (Component(GetFileName(p)) && !IsDriveRoot(p))
  {
    hide SplitPath;
    var name := GetFileName(p);
    if p.path == [] {
      SplitEmpty();
    } else if IsDriveRoot(p) {
      SplitOfColon(name);
    } else {
      var parent := p.path[..|p.path| - 1];
      assert p.path == parent + [name];
      if Component(name) {
        SplitOne(name);
      } else {
        SplitGivesComponents(name);
        assert (parent + SplitPath(name))[|parent|..] == SplitPath(name);
        assert (parent + [name])[|parent|..] == [name];
      }
    }
  }

  /** A drive root comes out one level too deep. */
  lemma RejoinDriveRoot(p: VFSPath)
    requires IsDriveRoot(p) && Component(p.path[0])
    ensures Rejoined(p) == VFSPath(false, [p.path[0], p.path[0]])
  {
    hide SplitPath;
    SplitOne(p.path[0]);
  }

  // ----- Relative and absolute -----

  function CommonPrefix(a: seq<string>, b: seq<string>): (i: nat)
    ensures i <= |a| && i <= |b| && a[..i] == b[..i]
    ensures i < |a| && i < |b| ==> a[i] != b[i]
  {
    if a == [] || b == [] || a[0] != b[0] then 0
    else
      var i := CommonPrefix(a[1..], b[1..]);
      assert a[..i + 1] == [a[0]] + a[1..][..i];
      assert b[..i + 1] == [b[0]] + b[1..][..i];
      1 + i
  }

  function Ups(n: nat): seq<string> {
    seq(n, _ => "..")
  }

  lemma UpsStep(n: nat)
    ensures Ups(0) == [] && Ups(n + 1) == [".."] + Ups(n)
  {
  }

  predicate Agree(a: seq<string>, b: seq<string>, i: nat) {
    i <= |a| && i <= |b| && a[..i] == b[..i]
  }

  lemma PrefixStep(a: seq<string>, b: seq<string>, i: nat)
    requires i < |a| && i < |b| && Agree(a, b, i) && a[i] == b[i]
    ensures Agree(a, b, i + 1)
  {
    assert a[..i + 1] == a[..i] + [a[i]];
    assert b[..i + 1] == b[..i] + [b[i]];
  }

  /** What `MakeRelative` returns. */
  function Relative(p: VFSPath, base: VFSPath): VFSPath {
    if p.relative then p
    else
      var i := CommonPrefix(p.path, base.path);
      if i + 1 == |p.path| && i + 1 == |base.path| then VFSPath(true, [p.path[i]])
      else VFSPath(true, Ups(|base.path| - i) + p.path[i..])
  }

  lemma CommonPrefixIs(a: seq<string>, b: seq<string>, i: nat)
    requires Agree(a, b, i)
    requires i < |a| && i < |b| ==> a[i] != b[i]
    ensures CommonPrefix(a, b) == i
  {
    var j := CommonPrefix(a, b);
    assert forall k :: 0 <= k < i ==> a[k] == a[..i][k] == b[..i][k] == b[k];
    assert forall k :: 0 <= k < j ==> a[k] == a[..j][k] == b[..j][k] == b[k];
  }

  lemma RelativeFrom(p: VFSPath, base: VFSPath, i: nat)
    requires !p.relative && i == CommonPrefix(p.path, base.path)
    ensures Relative(p, base)
            == if i + 1 == |p.path| && i + 1 == |base.path| then VFSPath(true, [p.path[|p.path| - 1]])
               else VFSPath(true, Ups(|base.path| - i) + p.path[i..])
  {
    hide CommonPrefix, Ups;
  }

  predicate Climbs(parts: seq<string>, n: nat, rest: seq<string>) {
    parts == Ups(n) + rest
  }

  lemma OneMoreUp(parts: seq<string>, n: nat, rest: seq<string>)
    ensures Climbs(rest, 0, rest)
    ensures Climbs(parts, n, rest) ==> Climbs([".."] + parts, n + 1, rest)
  {
    UpsStep(n);
  }

  lemma ClimbedRelative(p: VFSPath, base: VFSPath, i: nat, parts: seq<string>)
    requires !p.relative && i == CommonPrefix(p.path, base.path)
    requires !(i + 1 == |p.path| && i + 1 == |base.path|) && Climbs(parts, |base.path| - i, p.path[i..])
    ensures Relative(p, base) == VFSPath(true, parts)
  {
    hide CommonPrefix, Ups;
  }

  /** `MakeRelative`. The code's unsigned `size() - 1` of an empty path equals no index. */
  method MakeRelative(p: VFSPath, base: VFSPath) returns (r: VFSPath)
    ensures r == Relative(p, base)
  {
    if p.relative {
      return p;
    }
    hide Ups, CommonPrefix, Relative;
    var i := 0;
    assert Agree(p.path, base.path, 0);
    hide Agree;
    while i < |base.path| && i < |p.path| && p.path[i] == base.path[i]
      invariant i <= |p.path| && i <= |base.path| && Agree(p.path, base.path, i)
    {
      PrefixStep(p.path, base.path, i);
      i := i + 1;
    }
    CommonPrefixIs(p.path, base.path, i);
    if i + 1 == |p.path| && i + 1 == |base.path| {
      RelativeFrom(p, base, i);
      return VFSPath(true, [p.path[|p.path| - 1]]);
    }
    var parts := p.path[i..];
    ghost var start, rest := i, parts;
    OneMoreUp(parts, 0, rest);
    hide Climbs;
    while i < |base.path|
      invariant start <= i <= |base.path| && Climbs(parts, i - start, rest)
    {
      OneMoreUp(parts, i - start, rest);
      parts := [".."] + parts;
      i := i + 1;
    }
    ClimbedRelative(p, base, start, parts);
    r := VFSPath(true, parts);
  }

  /** `MakeAbsolute(curDir)`. */
  function Absolute(p: VFSPath, curDir: VFSPath): VFSPath {
    if !p.relative then p else Collapsed(Slash(curDir, p))
  }

  lemma {:induction false} FoldUps(stack: seq<string>, n: nat)
    requires n <= |stack|
    ensures Fold(stack, Ups(n)) == stack[..|stack| - n]
  {
    if n > 0 {
      FoldUps(stack, n - 1);
      assert Ups(n)[..n - 1] == Ups(n - 1);
    }
  }

  /** Same directory, different last component. */
  predicate Siblings(p: VFSPath, base: VFSPath) {
    |p.path| == |base.path| >= 1
    && p.path[..|p.path| - 1] == base.path[..|p.path| - 1]
    && p.path[|p.path| - 1] != base.path[|p.path| - 1]
  }

  lemma SiblingsByPrefix(p: VFSPath, base: VFSPath)
    ensures Siblings(p, base)
            <==> CommonPrefix(p.path, base.path) + 1 == |p.path| && |p.path| == |base.path|
  {
    if Siblings(p, base) {
      CommonPrefixIs(p.path, base.path, |p.path| - 1);
    }
  }

  lemma ClimbAndDescend(base: seq<string>, n: nat, rest: seq<string>)
    requires Clean(base) && Clean(rest) && n <= |base|
    ensures Fold([], base + (Ups(n) + rest)) == base[..|base| - n] + rest
  {
    FoldConcat([], base, Ups(n) + rest);
    FoldClean([], base);
    assert [] + base == base;
    FoldConcat(base, Ups(n), rest);
    FoldUps(base, n);
    FoldClean(base[..|base| - n], rest);
  }

  /**
   * For absolute, clean paths, resolving `MakeRelative(base)` against `base` gives the
   * path back except for siblings, which come back one level too deep.
   */
  lemma RelativeRoundTrip(p: VFSPath, base: VFSPath)
    requires !p.relative && !base.relative && Clean(p.path) && Clean(base.path)
    ensures Absolute(Relative(p, base), base) == p <==> !Siblings(p, base)
  {
    hide Relative, Absolute, Fold, CommonPrefix, Ups;
    SiblingsByPrefix(p, base);
    if Siblings(p, base) {
      var last := p.path[|p.path| - 1];
      assert last in p.path;
      RelativeOfSibling(p, base);
      ResolveName(base, last);
    } else {
      var i := CommonPrefix(p.path, base.path);
      RelativeFrom(p, base, i);
      ResolveClimb(base, |base.path| - i, p.path[i..]);
      assert p.path == p.path[..i] + p.path[i..];
    }
  }

  lemma ResolveClimb(dir: VFSPath, n: nat, rest: seq<string>)
    requires Clean(dir.path) && Clean(rest) && n <= |dir.path|
    ensures Absolute(VFSPath(true, Ups(n) + rest), dir) == VFSPath(dir.relative, dir.path[..|dir.path| - n] + rest)
  {
    hide Fold, Ups;
    ClimbAndDescend(dir.path, n, rest);
  }

  /** Siblings resolve against the parent of `base` instead, unless `base` is a drive root. */
  lemma SiblingRoundTrip(p: VFSPath, base: VFSPath)
    requires !p.relative && !base.relative && Clean(p.path) && Clean(base.path) && Siblings(p, base)
    ensures Absolute(Relative(p, base), GetParent(base)) == p <==> !IsDriveRoot(base)
  {
    hide Relative, Absolute, Fold;
    var n := |p.path| - 1;
    var parent := GetParent(base);
    RelativeOfSibling(p, base);
    CleanParent(base);
    ResolveName(parent, p.path[n]);
    assert p.path[n] in p.path;
    if !IsDriveRoot(base) {
      assert parent.path == p.path[..n];
      assert p.path == p.path[..n] + [p.path[n]];
    }
  }

  lemma RelativeOfSibling(p: VFSPath, base: VFSPath)
    requires !p.relative && Siblings(p, base)
    ensures Relative(p, base) == VFSPath(true, [p.path[|p.path| - 1]])
  {
    hide CommonPrefix;
    SiblingsByPrefix(p, base);
  }

  lemma CleanParent(base: VFSPath)
    requires Clean(base.path)
    ensures Clean(GetParent(base).path)
  {
  }

  lemma ResolveName(dir: VFSPath, name: string)
    requires Clean(dir.path) && name != "." && name != ".."
    ensures Absolute(VFSPath(true, [name]), dir) == VFSPath(dir.relative, dir.path + [name])
  {
    hide Fold;
    assert Ups(0) + [name] == [name];
    ClimbAndDescend(dir.path, 0, [name]);
  }

  /** Resolving an absolute path and making a relative one relative change nothing. */
  lemma AlreadyThere(p: VFSPath, base: VFSPath)
    ensures !p.relative ==> Absolute(p, base) == p
    ensures p.relative ==> Relative(p, base) == p
    ensures Relative(p, base).relative
  {
  }

  // ----- The relative path is the shortest -----

  /** Components to climb from `a` and to descend to `b`. */
  function Distance(a: seq<string>, b: seq<string>): nat {
    |a| + |b| - 2 * CommonPrefix(a, b)
  }

  lemma CommonPrefixLongest(a: seq<string>, b: seq<string>, i: nat)
    requires i <= |a| && i <= |b| && a[..i] == b[..i]
    ensures i <= CommonPrefix(a, b)
  {
    assert forall k :: 0 <= k < i ==> a[k] == a[..i][k] == b[..i][k] == b[k];
  }

  /** One component moves at most one step. */
  lemma PushMovesOne(stack: seq<string>, item: string, b: seq<string>)
    ensures Distance(stack, b) <= Distance(Push(stack, item), b) + 1
  {
    hide CommonPrefix;
    var next := Push(stack, item);
    var i := CommonPrefix(next, b);
    if item == ".." {
      if stack != [] {
        assert stack[..i] == next[..i];
        CommonPrefixLongest(stack, b, i);
      }
    } else if item != "." {
      var k := if i <= |stack| then i else |stack|;
      assert stack[..k] == next[..i][..k] == b[..i][..k] == b[..k];
      CommonPrefixLongest(stack, b, k);
    }
  }

  lemma {:induction false} FoldMoves(stack: seq<string>, items: seq<string>, b: seq<string>)
    ensures Distance(stack, b) <= Distance(Fold(stack, items), b) + |items|
  {
    hide Distance, Push;
    if items != [] {
      var n := |items| - 1;
      FoldMoves(stack, items[..n], b);
      PushMovesOne(Fold(stack, items[..n]), items[n], b);
    }
  }

  lemma DistanceToSelf(b: seq<string>)
    ensures Distance(b, b) == 0
  {
    hide CommonPrefix;
    CommonPrefixLongest(b, b, |b|);
  }

  /** No relative path that resolves to `p` has fewer components than `MakeRelative` gives. */
  lemma RelativeIsShortest(p: VFSPath, base: VFSPath, q: VFSPath)
    requires !p.relative && !base.relative && Clean(base.path)
    requires q.relative && Absolute(q, base) == p
    ensures |Relative(p, base).path| <= |q.path|
  {
    hide Fold, CommonPrefix;
    FoldConcat([], base.path, q.path);
    FoldClean([], base.path);
    assert [] + base.path == base.path;
    FoldMoves(base.path, q.path, p.path);
    DistanceToSelf(p.path);
    assert |Relative(p, base).path| <= Distance(base.path, p.path) by {
      CommonPrefixSymmetric(p.path, base.path);
    }
  }

  lemma CommonPrefixSymmetric(a: seq<string>, b: seq<string>)
    ensures CommonPrefix(a, b) == CommonPrefix(b, a)
  {
    CommonPrefixLongest(a, b, CommonPrefix(b, a));
    CommonPrefixLongest(b, a, CommonPrefix(a, b));
  }
}
