/** Extraction of GitHub handles from a header's `author` field, as `Name (@handle)`
    entries separated by commas. The two evaluators that read handles use two different
    patterns (src/rules/authors.ts:33-35 and src/rules/terminal.ts:13); both are modelled
    here segment by segment, one comma-separated segment at a time. */
module Handles {
  import opened Wrappers
  import opened Text

  /** The text holds no line terminator, so `.` matches each of its characters. */
  predicate NoLineBreak(s: string) {
    forall i :: 0 <= i < |s| ==> !IsLineTerminator(s[i])
  }

  /** The lazy `(.*?)` followed by the lookahead `\)tail`: the first position `m` at or
      after `j` where `rest[m]` is `)` and `tailOk` accepts what follows it, provided no
      line terminator comes first; -1 when there is none. */
  function CloseFrom(rest: string, tailOk: string -> bool, j: nat): (m: int)
    requires j <= |rest|
    ensures m == -1 || (j <= m < |rest| && rest[m] == ')' && tailOk(rest[m + 1..]))
    decreases |rest| - j
  {
    if j == |rest| || IsLineTerminator(rest[j]) then -1
    else if rest[j] == ')' && tailOk(rest[j + 1..]) then j
    else CloseFrom(rest, tailOk, j + 1)
  }

  /** The close found is the first: everything before it lies on one line and is no
      acceptable close; and when none is found, every acceptable close lies beyond a line
      terminator. */
  lemma {:induction false} CloseFromFirst(rest: string, tailOk: string -> bool, j: nat)
    requires j <= |rest|
    ensures var m := CloseFrom(rest, tailOk, j);
      m >= 0 ==> forall i :: j <= i < m ==> !IsLineTerminator(rest[i]) && !(rest[i] == ')' && tailOk(rest[i + 1..]))
    ensures CloseFrom(rest, tailOk, j) == -1 ==> forall i :: j <= i < |rest| && rest[i] == ')' && tailOk(rest[i + 1..]) ==>
      exists t :: j <= t < i && IsLineTerminator(rest[t])
    decreases |rest| - j
  {
    if j == |rest| || IsLineTerminator(rest[j]) {
    } else if rest[j] == ')' && tailOk(rest[j + 1..]) {
    } else {
      CloseFromFirst(rest, tailOk, j + 1);
    }
  }

  /** A segment `name(@handle)tail` whose name is non-empty and holds no `<` and no `(`:
      the handle is the shortest text, on one line, that is followed by `)` and a tail
      `tailOk` accepts; the tail is what follows that `)`. */
  function HandleCut(seg: string, tailOk: string -> bool): (r: Option<(string, string)>)
    ensures r.Some? ==> tailOk(r.value.1) && NoLineBreak(r.value.0)
  {
    CutAt(seg, tailOk, IndexOf(seg, '('))
  }

  /** The cut once the first `(` of the segment is known to be at `k` (-1: none). */
  function CutAt(seg: string, tailOk: string -> bool, k: int): (r: Option<(string, string)>)
    requires -1 <= k < |seg|
    ensures r.Some? ==> tailOk(r.value.1) && NoLineBreak(r.value.0)
  {
    if k < 1 || '<' in seg[..k] || k + 1 >= |seg| || seg[k + 1] != '@' then None
    else
      var rest := seg[k + 2..];
      var m := CloseFrom(rest, tailOk, 0);
      if m < 0 then None
      else
        CloseFromFirst(rest, tailOk, 0);
        Some((rest[..m], rest[m + 1..]))
  }

  /** The `)` at `i` inside `handle` would already end the capture of `handle)tail`. */
  predicate ClosesAt(handle: string, tail: string, tailOk: string -> bool, i: nat)
    requires i < |handle|
  {
    handle[i] == ')' && tailOk(handle[i + 1..] + ")" + tail)
  }

  /** No `)` inside the handle cut is followed by a tail the pattern accepts: the capture
      is the shortest one. */
  lemma HandleCutFirst(seg: string, tailOk: string -> bool)
    ensures var r := HandleCut(seg, tailOk);
      r.Some? ==> forall i :: 0 <= i < |r.value.0| ==> !ClosesAt(r.value.0, r.value.1, tailOk, i)
  {
    if HandleCut(seg, tailOk).Some? {
      var k := IndexOf(seg, '(');
      var rest := seg[k + 2..];
      var m := CloseFrom(rest, tailOk, 0);
      assert HandleCut(seg, tailOk) == Some((rest[..m], rest[m + 1..]));
      FirstCloseInside(rest, tailOk, m, rest[..m], rest[m + 1..]);
    }
  }

  /** Before the first acceptable close `m` of `rest`, no `)` is acceptable. */
  lemma FirstCloseInside(rest: string, tailOk: string -> bool, m: nat, handle: string, tail: string)
    requires CloseFrom(rest, tailOk, 0) == m && handle == rest[..m] && tail == rest[m + 1..]
    ensures forall i :: 0 <= i < m ==> !ClosesAt(handle, tail, tailOk, i)
  {
    CloseFromFirst(rest, tailOk, 0);
    forall i | 0 <= i < m ensures !ClosesAt(handle, tail, tailOk, i) {
      assert handle[i] == rest[i];
      assert rest[i + 1..] == handle[i + 1..] + [rest[m]] + tail;
    }
  }

  lemma CutShape(seg: string, k: nat, m: nat)
    requires k + 2 + m < |seg| && seg[k] == '(' && seg[k + 1] == '@' && seg[k + 2 + m] == ')'
    ensures seg == seg[..k] + "(@" + seg[k + 2..][..m] + ")" + seg[k + 2..][m + 1..]
  {
    var rest := seg[k + 2..];
    assert rest == rest[..m] + [rest[m]] + rest[m + 1..];
    assert seg[k..k + 2] == "(@";
    assert seg == seg[..k] + seg[k..k + 2] + rest;
  }

  /** What is cut is the segment's own text: a name without `<` or `(`, then `(@`, the
      handle, `)` and the tail. */
  lemma HandleCutShape(seg: string, tailOk: string -> bool)
    ensures HandleCut(seg, tailOk).Some? ==>
      exists name :: Named(name) && seg == name + "(@" + HandleCut(seg, tailOk).value.0 + ")" + HandleCut(seg, tailOk).value.1
  {
    if HandleCut(seg, tailOk).Some? {
      var k := IndexOf(seg, '(');
      var m := CloseFrom(seg[k + 2..], tailOk, 0);
      CutShape(seg, k, m);
      assert Named(seg[..k]);
    }
  }

  /** What `[^<(]+` accepts. */
  predicate Named(name: string) {
    name != [] && '<' !in name && '(' !in name
  }

  /** The first acceptable close decides: when `rest[m]` is `)`, the tail after it is
      accepted and no position from `j` on before it qualifies, the scan from `j` stops
      at `m`. */
  lemma {:induction false} CloseFromAt(rest: string, tailOk: string -> bool, j: nat, m: nat)
    requires j <= m < |rest| && rest[m] == ')' && tailOk(rest[m + 1..])
    requires forall i :: j <= i < m ==> !IsLineTerminator(rest[i]) && !(rest[i] == ')' && tailOk(rest[i + 1..]))
    ensures CloseFrom(rest, tailOk, j) == m
    decreases m - j
  {
    if j < m {
      CloseFromAt(rest, tailOk, j + 1, m);
    }
  }

  /** Every segment built from a name, a one-line handle and a tail the pattern accepts,
      where no `)` inside the handle is already followed by an accepted tail, is cut back
      into that handle and tail. With the contract of `HandleCut`, these are exactly the
      cuts there are. */
  lemma HandleCutOfParts(name: string, handle: string, tail: string, tailOk: string -> bool)
    requires Named(name) && NoLineBreak(handle) && tailOk(tail)
    requires forall i :: 0 <= i < |handle| ==> !ClosesAt(handle, tail, tailOk, i)
    ensures HandleCut(name + "(@" + handle + ")" + tail, tailOk) == Some((handle, tail))
  {
    FirstCloseOfParts(handle, tail, tailOk);
    CutOfParts(name, handle, tail, tailOk);
  }

  /** A segment whose first `(` is at `k`, after a name, and is followed by `@`, then
      `handle)tail` where that `)` is the first acceptable close, is cut into the two. */
  lemma CutFound(seg: string, k: nat, handle: string, tail: string, tailOk: string -> bool)
    requires IndexOf(seg, '(') == k && 1 <= k && k + 2 <= |seg| && '<' !in seg[..k] && seg[k + 1] == '@'
    requires seg[k + 2..] == handle + [')'] + tail && CloseFrom(handle + [')'] + tail, tailOk, 0) == |handle|
    ensures HandleCut(seg, tailOk) == Some((handle, tail))
  {
    assert seg[k + 2..][..|handle|] == handle;
    assert seg[k + 2..][|handle| + 1..] == tail;
  }

  /** A segment `name(@handle)tail` where the `)` after the handle is the first
      acceptable close is cut into that handle and tail. */
  lemma CutOfParts(name: string, handle: string, tail: string, tailOk: string -> bool)
    requires Named(name) && CloseFrom(handle + [')'] + tail, tailOk, 0) == |handle|
    ensures HandleCut(name + "(@" + handle + ")" + tail, tailOk) == Some((handle, tail))
  {
    OpenOfParts(name, handle, tail);
    CutFound(name + "(@" + handle + ")" + tail, |name|, handle, tail, tailOk);
  }

  /** The segment's first `(` ends the name and is followed by `@`; after the two
      comes the handle, `)` and the tail. */
  lemma OpenOfParts(name: string, handle: string, tail: string)
    requires Named(name)
    ensures var seg := name + "(@" + handle + ")" + tail;
      IndexOf(seg, '(') == |name| && |name| + 1 < |seg| && seg[..|name|] == name &&
      seg[|name| + 1] == '@' && seg[|name| + 2..] == handle + [')'] + tail
  {
    var seg := name + "(@" + handle + ")" + tail;
    var after := ['@'] + handle + [')'] + tail;
    assert seg == name + ['('] + after;
    IndexOfAfter(name, '(', after);
    assert seg[..|name|] == name;
  }

  /** The scan over `handle)tail` stops at the `)` after the handle. */
  lemma FirstCloseOfParts(handle: string, tail: string, tailOk: string -> bool)
    requires NoLineBreak(handle) && tailOk(tail)
    requires forall i :: 0 <= i < |handle| ==> !ClosesAt(handle, tail, tailOk, i)
    ensures CloseFrom(handle + [')'] + tail, tailOk, 0) == |handle|
  {
    var rest := handle + [')'] + tail;
    forall i | 0 <= i < |handle|
      ensures !IsLineTerminator(rest[i]) && !(rest[i] == ')' && tailOk(rest[i + 1..]))
    {
      assert !ClosesAt(handle, tail, tailOk, i);
      assert rest[i] == handle[i];
      assert rest[i + 1..] == handle[i + 1..] + ")" + tail;
    }
    assert rest[|handle| + 1..] == tail;
    CloseFromAt(rest, tailOk, 0, |handle|);
  }

  /** `\s*(<(("[^"]+")|([\w.]+)@[\w.]+)>)?`: blanks, then at most one address in angle
      brackets. */
  predicate AuthorsTail(t: string) {
    var u := TrimStart(t);
    u == [] || Email(u)
  }

  predicate IsWordOrDot(c: char) {
    ('a' <= c <= 'z') || ('A' <= c <= 'Z') || ('0' <= c <= '9') || c == '_' || c == '.'
  }

  predicate WordsAndDots(s: string) {
    s != [] && forall i :: 0 <= i < |s| ==> IsWordOrDot(s[i])
  }

  /** `"[^"]+"` */
  predicate Quoted(s: string) {
    |s| >= 3 && s[0] == '"' && s[|s| - 1] == '"' && '"' !in s[1..|s| - 1]
  }

  /** `[\w.]+@[\w.]+` */
  predicate Address(s: string) {
    exists k :: 0 <= k < |s| && s[k] == '@' && WordsAndDots(s[..k]) && WordsAndDots(s[k + 1..])
  }

  /** `<("[^"]+")|([\w.]+)@[\w.]+>`: the alternation binds loosest, so the brackets hold
      either a quoted text alone or an address. */
  predicate Email(u: string) {
    |u| >= 2 && u[0] == '<' && u[|u| - 1] == '>' &&
    var inner := u[1..|u| - 1];
    Quoted(inner) || Address(inner)
  }

  /** One blank before a text that does not start with a blank is trimmed away. */
  lemma BlankThen(u: string)
    requires u != [] && !IsWhitespace(u[0])
    ensures TrimStart([' '] + u) == u
  {
    assert ([' '] + u)[1..] == u;
  }

  /** One blank, then an address or a quoted text in angle brackets, is an accepted tail. */
  lemma BracketedTail(inner: string)
    requires Quoted(inner) || Address(inner)
    ensures AuthorsTail(" " + ("<" + inner + ">"))
  {
    var u := "<" + inner + ">";
    assert u[1..|u| - 1] == inner;
    BlankThen(u);
  }

  lemma AddressOf(w: string, d: string)
    requires WordsAndDots(w) && WordsAndDots(d)
    ensures Address(w + "@" + d)
  {
    var inner := w + "@" + d;
    assert inner[..|w|] == w;
    assert inner[|w| + 1..] == d;
    assert inner[|w|] == '@';
  }

  /** Blanks before an address in angle brackets form an accepted tail. */
  lemma AddressTail(w: string, d: string)
    requires WordsAndDots(w) && WordsAndDots(d)
    ensures AuthorsTail(" " + ("<" + (w + "@" + d) + ">"))
  {
    AddressOf(w, d);
    BracketedTail(w + "@" + d);
  }

  /** A quoted text in angle brackets is accepted on its own. */
  lemma QuotedTail(q: string)
    requires q != [] && '"' !in q
    ensures AuthorsTail(" " + ("<" + ("\"" + q + "\"") + ">"))
  {
    var inner := "\"" + q + "\"";
    assert inner[1..|inner| - 1] == q;
    BracketedTail(inner);
  }

  /** A quoted text followed by a domain is not accepted: the quoted form stands alone
      in the brackets, and `"` is no word character. */
  lemma QuotedWithDomain(q: string, d: string)
    requires '"' !in q && WordsAndDots(d)
    ensures !AuthorsTail(" " + ("<" + ("\"" + q + "\"@" + d) + ">"))
  {
    var inner := "\"" + q + "\"@" + d;
    assert inner[|inner| - 1] == d[|d| - 1];
    assert !Quoted(inner);
    forall k | 0 <= k < |inner| && inner[k] == '@' ensures !WordsAndDots(inner[..k]) {
      assert inner[0] == '"';
      assert inner[..k][0] == '"';
    }
    var u := "<" + inner + ">";
    assert u[1..|u| - 1] == inner;
    BlankThen(u);
  }

  /** The handles of the segments whose tail `tailOk` accepts, in segment order. */
  function SegmentHandles(segs: seq<string>, tailOk: string -> bool): (r: seq<string>)
    ensures |r| <= |segs|
    ensures forall h :: h in r ==> NoLineBreak(h)
  {
    if segs == [] then []
    else
      var cut := HandleCut(segs[0], tailOk);
      var first := if cut.Some? then [cut.value.0] else [];
      first + SegmentHandles(segs[1..], tailOk)
  }

  /** src/rules/authors.ts:33-35: the pattern runs over `,${author},`, where an absent
      author reads `undefined`; a handle may be followed by an e-mail address. */
  function AuthorsHandles(author: Option<string>): seq<string> {
    SegmentHandles(Split("," + author.GetOr("undefined") + ",", ','), AuthorsTail)
  }

  /** src/rules/terminal.ts:13: the pattern runs over the author field itself, an absent
      author gives no handles, and the `)` must end its segment. */
  function TerminalHandles(author: Option<string>): seq<string> {
    match author
    case None => []
    case Some(a) => SegmentHandles(Split(a, ','), t => t == [])
  }

  /** An entry without commas, wrapped in commas, splits into the entry between two
      empty segments. */
  lemma WrappedSplit(x: string)
    requires ',' !in x
    ensures Split("," + x + ",", ',') == ["", x, ""]
  {
    SplitAfterPiece(x, ',', "");
    SplitAfterPiece("", ',', x + ",");
    assert "," + x + "," == "" + [','] + (x + [','] + "");
    assert x + [','] + "" == x + ",";
  }

  /** The handles of the three segments `""`, `x`, `""`: those of `x`. */
  lemma WrappedHandles(x: string, tailOk: string -> bool)
    ensures SegmentHandles(["", x, ""], tailOk) == SegmentHandles([x], tailOk)
  {
    assert HandleCut("", tailOk) == None;
    assert ["", x, ""][1..] == [x, ""];
    assert [x, ""][1..] == [""];
    assert [x][1..] == [];
    assert [""][1..] == [];
    assert SegmentHandles([""], tailOk) == [];
  }

  /** One entry `name(@handle)` with a tail the pattern accepts gives that handle. */
  lemma OneSegment(name: string, handle: string, tail: string, tailOk: string -> bool)
    requires Named(name) && NoLineBreak(handle) && ')' !in handle && tailOk(tail)
    ensures SegmentHandles([name + "(@" + handle + ")" + tail], tailOk) == [handle]
  {
    HandleCutOfParts(name, handle, tail, tailOk);
    assert [name + "(@" + handle + ")" + tail][1..] == [];
  }

  lemma EntryHasNoComma(name: string, handle: string)
    requires ',' !in name && ',' !in handle
    ensures ',' !in name + "(@" + handle + ")"
  {
    var entry := name + "(@" + handle + ")";
    forall i | 0 <= i < |entry| ensures entry[i] != ',' {
      if i < |name| {
        assert entry[i] == name[i];
      } else if i < |name| + 2 {
      } else if i < |name| + 2 + |handle| {
        assert entry[i] == handle[i - |name| - 2];
      }
    }
  }

  /** One well-formed entry `name(@handle)` gives exactly that handle, under both
      patterns. */
  lemma SingleAuthor(name: string, handle: string)
    requires Named(name) && NoLineBreak(handle) && ')' !in handle && ',' !in name && ',' !in handle
    ensures AuthorsHandles(Some(name + "(@" + handle + ")")) == [handle]
    ensures TerminalHandles(Some(name + "(@" + handle + ")")) == [handle]
  {
    var entry := name + "(@" + handle + ")";
    EntryHasNoComma(name, handle);
    WrappedSplit(entry);
    WrappedHandles(entry, AuthorsTail);
    assert entry == name + "(@" + handle + ")" + "";
    assert TrimStart("") == "";
    OneSegment(name, handle, "", AuthorsTail);
    SplitAtFirst(entry, ',');
    OneSegment(name, handle, "", t => t == []);
  }

  /** No author field means no handles; `undefined` holds no `(@`. */
  lemma NoAuthorNoHandles()
    ensures AuthorsHandles(None) == []
    ensures TerminalHandles(None) == []
  {
    var u := "undefined";
    assert forall i :: 0 <= i < |u| ==> 'a' <= u[i] <= 'z';
    WrappedSplit(u);
    WrappedHandles(u, AuthorsTail);
    assert HandleCut(u, AuthorsTail) == None;
    assert [u][1..] == [];
  }

  /** The lazy capture runs past a `)` whose tail the pattern does not accept: in
      `name(@a)b) <w@d>`, where `b` starts with neither a blank nor `<`, the first `)` is
      followed by no address, so the handle is `a)b`. */
  lemma LazyCapturePastParen(name: string, a: string, b: string, w: string, d: string)
    requires Named(name) && NoLineBreak(a) && NoLineBreak(b) && ')' !in a && ')' !in b
    requires b != [] && !IsWhitespace(b[0]) && b[0] != '<'
    requires WordsAndDots(w) && WordsAndDots(d)
    ensures var tail := " " + ("<" + (w + "@" + d) + ">");
      HandleCut(name + "(@" + (a + ")" + b) + ")" + tail, AuthorsTail) == Some((a + ")" + b, tail))
  {
    var handle, tail := a + ")" + b, " " + ("<" + (w + "@" + d) + ">");
    AddressTail(w, d);
    forall i | 0 <= i < |handle| ensures !IsLineTerminator(handle[i]) && !ClosesAt(handle, tail, AuthorsTail, i) {
      if i < |a| {
        assert handle[i] == a[i];
      } else if i > |a| {
        assert handle[i] == b[i - |a| - 1];
      } else {
        var u := b + ")" + tail;
        assert handle[i + 1..] == b;
        assert u[0] == b[0];
        assert TrimStart(u) == u;
      }
    }
    HandleCutOfParts(name, handle, tail, AuthorsTail);
  }
}
