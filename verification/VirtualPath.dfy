/** Lexical normalisation of guest paths and their translation to host paths. */
module VirtualPath {
  import opened Options

  predicate Printable(c: char) { ' ' <= c <= '~' }

  predicate AllPrintable(s: string) { forall i :: 0 <= i < |s| ==> Printable(s[i]) }

  // ---- components ----

  /** One more character: a slash starts a new piece, any other goes to the last one. */
  function AddChar(parts: seq<string>, c: char): (r: seq<string>)
    requires parts != []
    ensures r != []
  {
    if c == '/' then parts + [""] else parts[..|parts| - 1] + [parts[|parts| - 1] + [c]]
  }

  /** The pieces of `s` between slashes, empty ones included. */
  function Split(s: string): (parts: seq<string>)
    ensures parts != []
  {
    if s == "" then [""] else AddChar(Split(s[..|s| - 1]), s[|s| - 1])
  }

  /** The pieces with slashes between them. */
  function Join(parts: seq<string>): string
    requires parts != []
  {
    if |parts| == 1 then parts[0] else Join(parts[..|parts| - 1]) + "/" + parts[|parts| - 1]
  }

  /** A piece that names something: not empty, not "." and not "..". */
  predicate Names(part: string) { part != "" && part != "." && part != ".." }

  /** One piece against the stack: ".." pops, at the root it does nothing. */
  function Push(stack: seq<string>, part: string): seq<string> {
    if part == ".." then (if stack == [] then [] else stack[..|stack| - 1])
    else if Names(part) then stack + [part]
    else stack
  }

  function Resolve(stack: seq<string>, parts: seq<string>): seq<string> {
    if parts == [] then stack else Push(Resolve(stack, parts[..|parts| - 1]), parts[|parts| - 1])
  }

  predicate NamesPrintable(parts: seq<string>) {
    forall i :: 0 <= i < |parts| && Names(parts[i]) ==> AllPrintable(parts[i])
  }

  function Render(stack: seq<string>): string {
    if stack == [] then "/" else "/" + Join(stack)
  }

  /** What normalisation means: reject the empty path and unprintable names, otherwise split, resolve and join. */
  function Normal(input: string): Option<string> {
    if input == "" || !NamesPrintable(Split(input)) then None else Some(Render(Resolve([], Split(input))))
  }

  predicate Good(part: string) { Names(part) && AllPrintable(part) && '/' !in part }

  predicate AllGood(parts: seq<string>) { forall i :: 0 <= i < |parts| ==> Good(parts[i]) }

  /** "/" or "/name/.../name": no empty, "." or ".." component, bytes 0x20 to 0x7E only. */
  predicate Canonical(s: string) {
    s == "/" || (s != "" && s[0] == '/' && AllGood(Split(s[1..])))
  }

  function Components(s: string): (parts: seq<string>)
    requires Canonical(s)
    ensures AllGood(parts)
  {
    if s == "/" then [] else Split(s[1..])
  }

  // ---- Split and Join are inverse ----

  predicate NoSlash(parts: seq<string>) { forall i :: 0 <= i < |parts| ==> '/' !in parts[i] }

  lemma Assoc<T>(a: seq<T>, b: seq<T>, c: seq<T>)
    ensures a + (b + c) == (a + b) + c
  {
  }

  lemma SplitPush(s: string, c: char)
    ensures Split("") == [""] && Split(s + [c]) == AddChar(Split(s), c)
  {
    assert (s + [c])[..|s|] == s;
  }

  lemma JoinLast(parts: seq<string>, last: string)
    requires parts != []
    ensures Join(parts + [last]) == Join(parts) + "/" + last
  {
    assert (parts + [last])[..|parts|] == parts;
  }

  lemma JoinAddChar(parts: seq<string>, c: char)
    requires parts != []
    ensures Join(AddChar(parts, c)) == Join(parts) + [c]
  {
    var front, last := parts[..|parts| - 1], parts[|parts| - 1];
    assert parts == front + [last];
    if c == '/' {
      JoinLast(parts, "");
    } else if front == [] {
      assert AddChar(parts, c) == [last + [c]];
    } else {
      hide Join;
      JoinLast(front, last);
      JoinLast(front, last + [c]);
      Assoc(Join(front) + "/", last, [c]);
    }
  }

  lemma AddCharToConcat(a: seq<string>, b: seq<string>, c: char)
    requires b != []
    ensures AddChar(a + b, c) == a + AddChar(b, c)
  {
    assert (a + b)[..|a + b| - 1] == a + b[..|b| - 1] && (a + b)[|a + b| - 1] == b[|b| - 1];
  }

  lemma {:induction false} SplitHasNoSlash(s: string)
    ensures NoSlash(Split(s))
  {
    if s != "" {
      SplitHasNoSlash(s[..|s| - 1]);
    }
  }

  lemma {:induction false} SplitSnoc(s: string, t: string)
    requires '/' !in t
    ensures var parts := Split(s); Split(s + t) == parts[..|parts| - 1] + [parts[|parts| - 1] + t]
  {
    hide Split;
    var front, last := Split(s)[..|Split(s)| - 1], Split(s)[|Split(s)| - 1];
    if t == "" {
      assert s + t == s && last + t == last;
    } else {
      var t', c := t[..|t| - 1], t[|t| - 1];
      assert t == t' + [c];
      SplitSnoc(s, t');
      Assoc(s, t', [c]);
      SplitPush(s + t', c);
      Assoc(last, t', [c]);
      LastGrows(front, last + t', c);
    }
  }

  lemma LastGrows(front: seq<string>, last: string, c: char)
    requires c != '/'
    ensures AddChar(front + [last], c) == front + [last + [c]]
  {
  }

  lemma {:induction false} SplitAppend(a: string, b: string)
    ensures Split(a + "/" + b) == Split(a) + Split(b)
  {
    hide Split, AddChar;
    var start := a + "/";
    SplitPush(a, '/');
    if b == "" {
      assert start + b == start;
      hide *;
      SlashAdded(Split(a));
    } else {
      var b', c := b[..|b| - 1], b[|b| - 1];
      assert b == b' + [c];
      SplitAppend(a, b');
      SplitPush(b', c);
      SplitPush(start + b', c);
      Assoc(start, b', [c]);
      AddCharToConcat(Split(a), Split(b'), c);
    }
  }

  lemma SlashAdded(parts: seq<string>)
    requires parts != []
    ensures AddChar(parts, '/') == parts + [""]
  {
  }

  lemma SplitName(t: string)
    requires '/' !in t
    ensures Split(t) == [t]
  {
    SplitSnoc("", t);
    assert "" + t == t;
  }

  lemma GoodHasNoSlash(parts: seq<string>)
    requires AllGood(parts)
    ensures NoSlash(parts)
  {
  }

  lemma {:induction false} SplitJoin(parts: seq<string>)
    requires parts != [] && NoSlash(parts)
    ensures Split(Join(parts)) == parts
  {
    hide Split;
    var front, last := parts[..|parts| - 1], parts[|parts| - 1];
    assert parts == front + [last];
    SplitName(last);
    if front != [] {
      SplitJoin(front);
      SplitAppend(Join(front), last);
    }
  }

  lemma {:induction false} JoinSplit(s: string)
    ensures Join(Split(s)) == s
  {
    if s != "" {
      var init, c := s[..|s| - 1], s[|s| - 1];
      assert s == init + [c];
      JoinSplit(init);
      SplitPush(init, c);
      JoinAddChar(Split(init), c);
    }
  }

  lemma {:induction false} CharIsInSomePart(s: string, c: char)
    requires c in s && c != '/'
    ensures exists i :: 0 <= i < |Split(s)| && c in Split(s)[i]
  {
    var init, last := s[..|s| - 1], s[|s| - 1];
    var parts := Split(s);
    if last == c {
      assert c in parts[|parts| - 1];
    } else {
      CharIsInSomePart(init, c);
      var i :| 0 <= i < |Split(init)| && c in Split(init)[i];
      assert c in parts[i];
    }
  }

  lemma NulIsRejected(s: string)
    requires '\0' in s
    ensures Normal(s) == None
  {
    CharIsInSomePart(s, '\0');
    var i :| 0 <= i < |Split(s)| && '\0' in Split(s)[i];
    var part := Split(s)[i];
    var k :| 0 <= k < |part| && part[k] == '\0';
    assert Names(part) && !Printable(part[k]);
  }

  // ---- the stack ----

  lemma {:induction false} ResolveAppend(stack: seq<string>, a: seq<string>, b: seq<string>)
    ensures Resolve(stack, a + b) == Resolve(Resolve(stack, a), b)
  {
    if b == [] {
      assert a + b == a;
    } else {
      ResolveAppend(stack, a, b[..|b| - 1]);
      assert (a + b)[..|a + b| - 1] == a + b[..|b| - 1];
    }
  }

  lemma {:induction false} ResolveGood(stack: seq<string>, parts: seq<string>)
    requires AllGood(parts)
    ensures Resolve(stack, parts) == stack + parts
  {
    if parts == [] {
      assert stack + parts == stack;
    } else {
      ResolveGood(stack, parts[..|parts| - 1]);
    }
  }

  /** Only printable names ever get on the stack. */
  lemma {:induction false} StackIsGood(stack: seq<string>, parts: seq<string>)
    requires AllGood(stack) && NoSlash(parts) && NamesPrintable(parts)
    ensures AllGood(Resolve(stack, parts))
  {
    if parts != [] {
      StackIsGood(stack, parts[..|parts| - 1]);
    }
  }

  lemma RenderIsCanonical(stack: seq<string>)
    requires AllGood(stack)
    ensures Canonical(Render(stack)) && Components(Render(stack)) == stack
    ensures stack != [] ==> Render(stack) != "/"
  {
    if stack != [] {
      SplitJoin(stack);
      assert Render(stack)[1..] == Join(stack);
      assert Split("") == [""];
    }
  }

  lemma CanonicalIsRendered(s: string)
    requires Canonical(s)
    ensures s == Render(Components(s))
  {
    hide Split, Join, Good;
    if s != "/" {
      JoinSplit(s[1..]);
      assert s == "/" + s[1..];
    }
  }

  /** Splitting a rendered stack gives the stack back, up to empty pieces. */
  lemma ResolveRendered(stack: seq<string>)
    requires AllGood(stack)
    ensures NamesPrintable(Split(Render(stack))) && Resolve([], Split(Render(stack))) == stack
  {
    hide Split, Resolve;
    NothingPushed();
    if stack == [] {
      SplitAppend("", "");
      SplitName("");
      assert "" + "/" + "" == "/" && [""] + [""] == ["", ""];
    } else {
      SplitAppend("", Join(stack));
      SplitName("");
      assert "" + "/" + Join(stack) == Render(stack);
      SplitJoin(stack);
      ResolveAppend([], [""], stack);
      ResolveGood([], stack);
      assert [] + stack == stack;
      PrintableAppend([""], stack);
    }
  }

  lemma NothingPushed()
    ensures Resolve([], [""]) == [] && Resolve([], ["", ""]) == []
  {
    assert [""][..0] == [] && ["", ""][..1] == [""];
  }

  // ---- what normalisation guarantees ----

  /** A path is left unchanged exactly when it is canonical. */
  lemma FixpointIff(s: string)
    ensures Normal(s) == Some(s) <==> Canonical(s)
  {
    if Normal(s) == Some(s) {
      NormalIsCanonical(s);
    }
    if Canonical(s) {
      CanonicalIsRendered(s);
      ResolveRendered(Components(s));
    }
  }

  lemma NormalIsCanonical(s: string)
    requires Normal(s).Some?
    ensures Canonical(Normal(s).value) && Components(Normal(s).value) == Resolve([], Split(s))
  {
    SplitHasNoSlash(s);
    StackIsGood([], Split(s));
    RenderIsCanonical(Resolve([], Split(s)));
  }

  lemma Idempotent(s: string)
    requires Normal(s).Some?
    ensures Normal(Normal(s).value) == Normal(s)
  {
    NormalIsCanonical(s);
    FixpointIff(Normal(s).value);
  }

  /** Normalising the front of a path first changes nothing. */
  lemma NormalOfAppend(a: string, b: string)
    requires Normal(a).Some?
    ensures Normal(a + "/" + b) == Normal(Normal(a).value + "/" + b)
  {
    hide Split, Resolve, Render, Names;
    var stack := Resolve([], Split(a));
    var n := Render(stack);
    SplitHasNoSlash(a);
    StackIsGood([], Split(a));
    ResolveRendered(stack);
    SplitAppend(a, b);
    SplitAppend(n, b);
    ResolveAppend([], Split(a), Split(b));
    ResolveAppend([], Split(n), Split(b));
    PrintableAppend(Split(a), Split(b));
    PrintableAppend(Split(n), Split(b));
  }

  /** Empty components are dropped, not rejected: a doubled or a final slash makes no difference. */
  lemma EmptyComponentsCollapse(a: string, b: string)
    requires a != ""
    ensures Normal(a + "//" + b) == Normal(a + "/" + b)
    ensures Normal(a + "/") == Normal(a)
  {
    hide Split, Resolve, Render;
    SplitName("");
    SplitAppend(a, "");
    SplitAppend(a + "/", b);
    SplitAppend(a, b);
    assert a + "/" + "" == a + "/" && a + "/" + "/" + b == a + "//" + b;
    SkipsEmpty(Split(a));
    ResolveAppend([], Split(a) + [""], Split(b));
    ResolveAppend([], Split(a), Split(b));
    PrintableAppend(Split(a), [""]);
    PrintableAppend(Split(a) + [""], Split(b));
    PrintableAppend(Split(a), Split(b));
  }

  lemma SkipsEmpty(parts: seq<string>)
    ensures Resolve([], parts + [""]) == Resolve([], parts) && NamesPrintable([""])
  {
    assert (parts + [""])[..|parts|] == parts;
  }

  /** For any two names x and y the path /x//y is accepted and means /x/y. */
  lemma DoubledSlashAccepted(x: string, y: string)
    requires Good(x) && Good(y)
    ensures Normal("/" + x + "//" + y) == Some("/" + x + "/" + y)
  {
    hide Split, Join, Normal, Names;
    var s := "/" + x + "/" + y;
    SplitName(x);
    SplitName(y);
    SplitAppend(x, y);
    assert s[1..] == x + "/" + y;
    EmptyComponentsCollapse("/" + x, y);
    FixpointIff(s);
  }

  // ---- what the components do ----

  /** One more component: a name is added at the end, ".." takes the last one away and does nothing at the root, "." and
      the empty component do nothing. */
  lemma LastComponent(a: string, x: string)
    requires Normal(a).Some? && '/' !in x && (Names(x) ==> AllPrintable(x))
    ensures Normal(a + "/" + x).Some? && Canonical(Normal(a).value) && Canonical(Normal(a + "/" + x).value)
    ensures var before, after := Components(Normal(a).value), Components(Normal(a + "/" + x).value);
            after == if x == "" || x == "." then before
                     else if x == ".." then (if before == [] then [] else before[..|before| - 1])
                     else before + [x]
  {
    hide Split, Canonical, Components, Render;
    SplitAppend(a, x);
    SplitName(x);
    PrintableAppend(Split(a), [x]);
    assert (Split(a) + [x])[..|Split(a)|] == Split(a);
    NormalIsCanonical(a);
    NormalIsCanonical(a + "/" + x);
  }

  /** The way down and up again. */
  lemma DownAndUp(a: string, x: string)
    requires Normal(a).Some? && Good(x)
    ensures Normal(a + "/" + x + "/..") == Normal(a)
  {
    hide Normal, Split, Canonical, Components, Render;
    LastComponent(a, x);
    LastComponent(a + "/" + x, "..");
    assert a + "/" + x + "/" + ".." == a + "/" + x + "/..";
    var before, after := Normal(a).value, Normal(a + "/" + x + "/..").value;
    var mid := Components(Normal(a + "/" + x).value);
    assert mid[..|mid| - 1] == Components(before);
    SameComponents(before, after);
  }

  lemma SameComponents(s: string, t: string)
    requires Canonical(s) && Canonical(t) && Components(s) == Components(t)
    ensures s == t
  {
    hide Canonical, Components;
    CanonicalIsRendered(s);
    CanonicalIsRendered(t);
  }

  /** A dot component changes nothing, and ".." stays at the root. */
  lemma DotStays(a: string)
    requires Normal(a).Some?
    ensures Normal(a + "/.") == Normal(a)
    ensures Normal("/..") == Some("/") && Normal("/") == Some("/")
  {
    hide Split, Components, Render, Resolve;
    LastComponent(a, ".");
    assert a + "/" + "." == a + "/.";
    SameComponents(Normal(a).value, Normal(a + "/.").value);
    FixpointIff("/");
    UpFromRoot();
  }

  lemma UpFromRoot()
    ensures Normal("/..") == Some("/")
  {
    SplitAppend("", "..");
    SplitName("");
    SplitName("..");
    assert "" + "/" + ".." == "/.." && [""] + [".."] == ["", ".."];
    assert ["", ".."][..1] == [""] && [""][..0] == [];
    assert Resolve([], [""]) == [];
  }

  /** A path without a leading slash starts at the root. */
  lemma LeadingSlash(s: string)
    requires s != ""
    ensures Normal("/" + s) == Normal(s)
  {
    hide Split, Resolve, Render;
    SplitName("");
    SplitAppend("", s);
    assert "" + "/" + s == "/" + s;
    NothingPushed();
    ResolveAppend([], [""], Split(s));
    PrintableAppend([""], Split(s));
  }

  /** Something other than "", "." and "..", with a byte outside 0x20 to 0x7E. */
  predicate Spoils(part: string) {
    part !in {"", ".", ".."} && exists k :: 0 <= k < |part| && !(0x20 <= part[k] as int <= 0x7E)
  }

  /** A path is rejected exactly when it is empty or one of its components spoils it. */
  lemma RejectedIff(s: string)
    ensures Normal(s) == None <==> s == "" || exists i :: 0 <= i < |Split(s)| && Spoils(Split(s)[i])
  {
    hide Split, Names, AllPrintable, Spoils;
    var parts := Split(s);
    forall i | 0 <= i < |parts| ensures Spoils(parts[i]) <==> Names(parts[i]) && !AllPrintable(parts[i]) {
      SpoilsIff(parts[i]);
    }
    if !NamesPrintable(parts) {
      var i :| 0 <= i < |parts| && Names(parts[i]) && !AllPrintable(parts[i]);
      assert Spoils(Split(s)[i]);
    }
  }

  lemma SpoilsIff(part: string)
    ensures Spoils(part) <==> Names(part) && !AllPrintable(part)
  {
    if Names(part) && !AllPrintable(part) {
      var k :| 0 <= k < |part| && !Printable(part[k]);
      assert !(0x20 <= part[k] as int <= 0x7E);
    }
  }

  lemma PrintableAppend(a: seq<string>, b: seq<string>)
    ensures NamesPrintable(a + b) <==> NamesPrintable(a) && NamesPrintable(b)
  {
    hide Names, AllPrintable;
    if NamesPrintable(a + b) {
      forall i | 0 <= i < |a| && Names(a[i]) ensures AllPrintable(a[i]) {
        assert (a + b)[i] == a[i];
      }
      forall i | 0 <= i < |b| && Names(b[i]) ensures AllPrintable(b[i]) {
        assert (a + b)[|a| + i] == b[i];
      }
    }
  }

  // ---- the loop ----

  method ContainsNul(input: string) returns (found: bool)
    ensures found <==> '\0' in input
  {
    for i := 0 to |input|
      invariant '\0' !in input[..i]
    {
      if input[i] == '\0' {
        return true;
      }
    }
    found := false;
  }

  method Unprintable(part: string) returns (found: bool)
    ensures found <==> !AllPrintable(part)
  {
    for i := 0 to |part|
      invariant AllPrintable(part[..i])
    {
      if !Printable(part[i]) {
        return true;
      }
    }
    found := false;
  }

  method Normalize(input: string) returns (out: Option<string>)
    ensures out == Normal(input)
  {
    hide NamesPrintable, Render, LoopState, Split, Resolve;
    if input == "" {
      return None;
    }
    var nul := ContainsNul(input);
    if nul {
      NulIsRejected(input);
      return None;
    }
    var stack: seq<string> := [];
    var i := 0;
    Start(input);
    if input[0] == '/' {
      i := i + 1;
    }
    var cur := "";
    while i <= |input|
      invariant i <= |input| + 1
      invariant i <= |input| ==> LoopState(input[..i], cur, stack)
      invariant i == |input| + 1 ==> stack == Resolve([], Split(input)) && NamesPrintable(Split(input))
    {
      var c := if i < |input| then input[i] else '/';
      if c == '/' {
        var ok;
        ok, stack := EndPiece(input, i, cur, stack);
        if !ok {
          return None;
        }
        cur := "";
      } else {
        ReadChar(input, i, cur, stack);
        cur := cur + [c];
      }
      i := i + 1;
    }
    var text := RenderLoop(stack);
    out := Some(text);
  }

  /** The end of a piece: drop it, pop, or push it. */
  method EndPiece(input: string, i: nat, cur: string, stack: seq<string>) returns (ok: bool, stack': seq<string>)
    requires i <= |input| && (i < |input| ==> input[i] == '/') && LoopState(input[..i], cur, stack)
    ensures !ok ==> Normal(input) == None
    ensures ok && i < |input| ==> LoopState(input[..i + 1], "", stack')
    ensures ok && i == |input| ==> stack' == Resolve([], Split(input)) && NamesPrintable(Split(input))
  {
    hide NamesPrintable, Split, Resolve, Normal;
    ok, stack' := true, stack;
    if cur != "" && cur != "." {
      if cur == ".." {
        if stack != [] {
          stack' := stack[..|stack| - 1];
        }
      } else {
        var bad := Unprintable(cur);
        if bad {
          UnprintableIsFinal(input, i, cur);
          return false, stack;
        }
        stack' := stack + [cur];
      }
    }
    assert stack' == Push(stack, cur);
    Flush(input[..i], cur);
    if i < |input| {
      assert input[..i + 1] == input[..i] + "/";
    } else {
      assert input[..i] == input;
    }
  }

  lemma ReadChar(input: string, i: nat, cur: string, stack: seq<string>)
    requires i < |input| && input[i] != '/' && LoopState(input[..i], cur, stack)
    ensures LoopState(input[..i + 1], cur + [input[i]], stack)
  {
    hide Split, Resolve, NamesPrintable;
    assert input[..i + 1] == input[..i] + [input[i]];
    SplitPush(input[..i], input[i]);
  }

  method RenderLoop(stack: seq<string>) returns (text: string)
    ensures text == Render(stack)
  {
    text := "/";
    for k := 0 to |stack|
      invariant text == Render(stack[..k])
    {
      assert stack[..k + 1][..k] == stack[..k];
      if k > 0 {
        text := text + "/";
      }
      text := text + stack[k];
    }
    assert stack[..|stack|] == stack;
  }

  /** After the characters `seen`: the piece being read and the stack of the pieces before it. */
  ghost predicate LoopState(seen: string, cur: string, stack: seq<string>) {
    var parts := Split(seen);
    && cur == parts[|parts| - 1]
    && stack == Resolve([], parts[..|parts| - 1])
    && NamesPrintable(parts[..|parts| - 1])
  }

  lemma Start(input: string)
    requires input != ""
    ensures LoopState(input[..0], "", [])
    ensures input[0] == '/' ==> LoopState(input[..1], "", [])
  {
    assert Split("") == [""] && input[..0] == "";
    if input[0] == '/' {
      var s := input[..1];
      assert s[..0] == "" && Split(s) == ["", ""];
      assert ["", ""][..1] == [""] && Resolve([], [""]) == [];
    }
  }

  /** What reading a slash does to the pieces. */
  lemma Flush(seen: string, cur: string)
    requires cur == Split(seen)[|Split(seen)| - 1]
    ensures Split(seen + "/") == Split(seen) + [""]
    ensures var parts := Split(seen);
            && Resolve([], parts) == Push(Resolve([], parts[..|parts| - 1]), cur)
            && (NamesPrintable(parts) <==>
                  NamesPrintable(parts[..|parts| - 1]) && (Names(cur) ==> AllPrintable(cur)))
    ensures (Split(seen) + [""])[..|Split(seen)|] == Split(seen)
  {
    assert (seen + "/")[..|seen|] == seen;
    var parts := Split(seen);
    assert parts == parts[..|parts| - 1] + [cur];
    PrintableAppend(parts[..|parts| - 1], [cur]);
    assert NamesPrintable([cur]) <==> (Names(cur) ==> AllPrintable(cur));
  }

  /** A rejected name rejects the whole path, whatever follows it and even if ".." would pop it. */
  lemma UnprintableIsFinal(input: string, i: nat, cur: string)
    requires i <= |input| && (i < |input| ==> input[i] == '/')
    requires cur == Split(input[..i])[|Split(input[..i])| - 1] && Names(cur) && !AllPrintable(cur)
    ensures Normal(input) == None
  {
    hide AllPrintable, Names;
    var seen := input[..i];
    var parts := Split(seen);
    assert Names(parts[|parts| - 1]) && !AllPrintable(parts[|parts| - 1]);
    assert !NamesPrintable(parts);
    if i < |input| {
      assert input == seen + "/" + input[i + 1..];
      SplitAppend(seen, input[i + 1..]);
      PrintableAppend(parts, Split(input[i + 1..]));
    } else {
      assert seen == input;
    }
  }
}
