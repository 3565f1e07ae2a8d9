/** Folder navigation of webdavobj.js: `Path_Name` as a stack of folder names. */
module Navigation {
  import opened Basics
  import opened JsText
  import opened NameCodec

  /** "/" or "/seg/.../seg/". */
  function PathOf(segs: seq<Text>): Text {
    if segs == [] then [SLASH] else PathOf(segs[..|segs| - 1]) + segs[|segs| - 1] + [SLASH]
  }

  /** A folder name: non-empty and without a slash. */
  predicate IsName(s: Text) { s != [] && SLASH !in s }

  /** `encodeURIComponent(seg) + "/"` appended for each piece; URIError is `None`. */
  function EncodeSegments(pieces: seq<Text>, skipEmpty: bool, path: Text): Option<Text>
    decreases |pieces|
  {
    if pieces == [] then Some(path)
    else if skipEmpty && pieces[0] == [] then EncodeSegments(pieces[1..], skipEmpty, path)
    else match EncodeURIComponent(pieces[0])
      case None => None
      case Some(e) => EncodeSegments(pieces[1..], skipEmpty, path + e + [SLASH])
  }

  /** The collection that a click on a folder requests. */
  function EnterRequest(pathName: Text, name: Text): Option<Text> {
    match EncodeURIComponent(name)
    case None => None
    case Some(e) =>
      match EncodeSegments(Split(pathName), true, [SLASH])
      case None => None
      case Some(path) => Some(path + e + [SLASH])
  }

  /** The collection that the back button requests. */
  function BackRequest(pathName: Text): Option<Text> {
    var pieces := Split(pathName);
    if |pieces| > 2 then EncodeSegments(pieces[..|pieces| - 2], false, []) else Some([SLASH])
  }

  /** Some collection in the reply decodes to the requested one. */
  predicate Lists(hrefs: seq<Text>, path: Text) { exists h <- hrefs :: Decode(h) == Decode(path) }

  /** A click and the collections in the reply to its request; a failed request has none. */
  datatype Click = Enter(name: Text, hrefs: seq<Text>) | Back(hrefs: seq<Text>)

  function Request(pathName: Text, click: Click): Option<Text> {
    match click case Enter(name, _) => EnterRequest(pathName, name) case Back(_) => BackRequest(pathName)
  }

  predicate Answered(pathName: Text, click: Click) {
    var request := Request(pathName, click);
    request.Some? && Lists(click.hrefs, request.value)
  }

  /** `Path_Name` after a click: a name that cannot be encoded and a reply without the collection change nothing. */
  function Visit(pathName: Text, click: Click): Text {
    if Answered(pathName, click) then Decode(Request(pathName, click).value) else pathName
  }

  class Browser {
    var pathName: Text

    constructor ()
      ensures pathName == [SLASH]
    {
      pathName := [SLASH];
    }

    /** Every collection in the reply that decodes to the requested one sets the path. */
    method Propfind(path: Text, hrefs: seq<Text>)
      modifies this
      ensures pathName == if Lists(hrefs, path) then Decode(path) else old(pathName)
    {
      hide Decode;
      var i := 0;
      while i < |hrefs|
        invariant 0 <= i <= |hrefs|
        invariant pathName == if Lists(hrefs[..i], path) then Decode(path) else old(pathName)
      {
        assert hrefs[..i + 1] == hrefs[..i] + [hrefs[i]];
        var decoded := Utf8ToChar(hrefs[i]);
        var asked := Utf8ToChar(path);
        if decoded == asked {
          pathName := Utf8ToChar(hrefs[i]);
          assert hrefs[i] in hrefs[..i + 1];
        }
        i := i + 1;
      }
      assert hrefs[..i] == hrefs;
    }

    /** `ok` is false when a name cannot be encoded; nothing is requested then. */
    method GetFileOnClick(fileName: Text, hrefs: seq<Text>) returns (ok: bool)
      modifies this
      ensures ok == EnterRequest(old(pathName), fileName).Some?
      ensures pathName == Visit(old(pathName), Enter(fileName, hrefs))
    {
      hide EncodeURIComponent, Split, Lists, Decode;
      var encoded := EncodeURIComponent(fileName);
      if encoded == None {
        return false;
      }
      var temp := Split(pathName);
      var path: Text := [SLASH];
      var i := 0;
      while i < |temp|
        invariant 0 <= i <= |temp|
        invariant EncodeSegments(temp, true, [SLASH]) == EncodeSegments(temp[i..], true, path)
        invariant pathName == old(pathName)
      {
        if temp[i] != [] {
          var piece := EncodeURIComponent(temp[i]);
          if piece == None {
            return false;
          }
          path := path + piece.value + [SLASH];
        }
        i := i + 1;
      }
      Propfind(path + encoded.value + [SLASH], hrefs);
      ok := true;
    }

    method BackOnClick(hrefs: seq<Text>) returns (ok: bool)
      modifies this
      ensures ok == BackRequest(old(pathName)).Some?
      ensures pathName == Visit(old(pathName), Back(hrefs))
    {
      hide EncodeURIComponent, Split, Lists, Decode;
      var path: Text := [];
      var name := Split(pathName);
      if |name| > 2 {
        ghost var pieces := name[..|name| - 2];
        var i := 0;
        while i < |name| - 2
          invariant 0 <= i <= |name| - 2
          invariant EncodeSegments(pieces, false, []) == EncodeSegments(pieces[i..], false, path)
          invariant pathName == old(pathName)
        {
          var piece := EncodeURIComponent(name[i]);
          if piece == None {
            return false;
          }
          path := path + piece.value + [SLASH];
          i := i + 1;
        }
      } else {
        path := [SLASH];
      }
      Propfind(path, hrefs);
      ok := true;
    }
  }

  // ---- Paths split into their names.

  lemma {:induction false} SplitJoin(a: Text, t: Text)
    requires SLASH !in a
    ensures Split(a + [SLASH] + t) == [a] + Split(t)
    decreases |a|
  {
    var s := a + [SLASH] + t;
    if a == [] {
      assert s == [SLASH] + t && s[1..] == t;
    } else {
      assert s[1..] == a[1..] + [SLASH] + t;
      SplitJoin(a[1..], t);
      assert [a[0]] + a[1..] == a;
    }
  }

  lemma NameHasNoSlash(name: Text)
    requires IsName(name)
    ensures SLASH !in name
  {
  }

  lemma PathOfLast(segs: seq<Text>, t: Text)
    requires segs != []
    ensures var n := |segs| - 1; PathOf(segs) + t == PathOf(segs[..n]) + (segs[n] + [SLASH] + t)
  {
    var front, last := PathOf(segs[..|segs| - 1]), segs[|segs| - 1];
    assert PathOf(segs) == front + last + [SLASH];
    hide *;
    Assoc(front, last, [SLASH]);
    Assoc(front, last + [SLASH], t);
  }

  lemma {:induction false} SplitPathTail(segs: seq<Text>, t: Text)
    requires forall i: nat | i < |segs| :: IsName(segs[i])
    ensures Split(PathOf(segs) + t) == [[]] + segs + Split(t)
    decreases |segs|
  {
    hide *;
    if segs == [] {
      SplitRoot(t);
    } else {
      var front, last := segs[..|segs| - 1], segs[|segs| - 1];
      NameHasNoSlash(last);
      SplitPathTail(front, last + [SLASH] + t);
      SplitJoin(last, t);
      PathOfLast(segs, t);
      assert segs == front + [last];
      Assoc([[]], front, [last]);
      Assoc([[]] + front, [last], Split(t));
    }
  }

  lemma SplitRoot(t: Text)
    ensures Split(PathOf([]) + t) == [[]] + [] + Split(t)
  {
    hide Split;
    SplitJoin([], t);
    assert [] + [SLASH] + t == PathOf([]) + t;
  }

  lemma SplitPath(segs: seq<Text>)
    requires forall i: nat | i < |segs| :: IsName(segs[i])
    ensures Split(PathOf(segs)) == [[]] + segs + [[]]
  {
    SplitPathTail(segs, []);
    assert PathOf(segs) + [] == PathOf(segs);
  }

  // ---- What the requests decode to.

  lemma {:induction false} SpellJoin(p: seq<Token>, q: seq<Token>)
    requires AllPlain(p) && AllPlain(q)
    ensures AllPlain(p + q) && SpellAll(p + q) == SpellAll(p) + SpellAll(q)
  {
    hide Spell;
    if p == [] {
      assert p + q == q;
    } else {
      SpellJoin(p[1..], q);
      assert (p + q)[1..] == p[1..] + q;
    }
  }

  /** The pieces, each with its slash. */
  function Flat(pieces: seq<Text>, skipEmpty: bool): Text {
    if pieces == [] then []
    else if skipEmpty && pieces[0] == [] then Flat(pieces[1..], skipEmpty)
    else pieces[0] + [SLASH] + Flat(pieces[1..], skipEmpty)
  }

  /** One encoded piece and its slash, as tokens. */
  lemma PieceTokens(piece: Text, ks: seq<Token>) returns (ls: seq<Token>)
    requires AllPlain(ks) && EncodeTokens(piece).Some?
    ensures AllPlain(ls) && EncodeURIComponent(piece).Some?
    ensures SpellAll(ls) == SpellAll(ks) + EncodeURIComponent(piece).value + [SLASH]
    ensures Units(ls) == Units(ks) + Units(EncodeTokens(piece).value) + [SLASH]
  {
    hide EncodeTokens;
    var e := EncodeTokens(piece).value;
    ls := ks + e + [Lit(SLASH)];
    SlashToken();
    SpellJoin(ks, e);
    SpellJoin(ks + e, [Lit(SLASH)]);
    UnitsJoin(ks, e);
    UnitsJoin(ks + e, [Lit(SLASH)]);
  }

  lemma SlashToken()
    ensures AllPlain([Lit(SLASH)]) && SpellAll([Lit(SLASH)]) == [SLASH] && Units([Lit(SLASH)]) == [SLASH]
  {
    assert SpellAll([]) == [] && [SLASH] + [] == [SLASH];
  }

  predicate AllDecodable(pieces: seq<Text>) { forall i: nat | i < |pieces| :: Decodable(pieces[i]) }

  lemma {:induction false} SegmentTokens(pieces: seq<Text>, skipEmpty: bool, ks: seq<Token>) returns (ls: seq<Token>)
    requires AllPlain(ks) && AllDecodable(pieces)
    ensures AllPlain(ls) && EncodeSegments(pieces, skipEmpty, SpellAll(ks)) == Some(SpellAll(ls))
    ensures Units(ls) == Units(ks) + Flat(pieces, skipEmpty)
    decreases |pieces|
  {
    hide SpellAll, EncodeTokens, EncodeURIComponent, Units;
    if pieces == [] {
      ls := ks;
    } else if skipEmpty && pieces[0] == [] {
      ls := SegmentTokens(pieces[1..], skipEmpty, ks);
    } else {
      DecodableTokens(pieces[0]);
      var ms := PieceTokens(pieces[0], ks);
      ls := SegmentTokens(pieces[1..], skipEmpty, ms);
      assert Units(ks) + pieces[0] + [SLASH] + Flat(pieces[1..], skipEmpty)
          == Units(ks) + (pieces[0] + [SLASH] + Flat(pieces[1..], skipEmpty));
    }
  }

  lemma {:induction false} FlatJoin(p: seq<Text>, q: seq<Text>, skipEmpty: bool)
    ensures Flat(p + q, skipEmpty) == Flat(p, skipEmpty) + Flat(q, skipEmpty)
    decreases |p|
  {
    if p == [] {
      assert p + q == q;
    } else {
      assert (p + q)[1..] == p[1..] + q;
      FlatJoin(p[1..], q, skipEmpty);
    }
  }

  lemma {:induction false} FlatIsPath(segs: seq<Text>)
    requires forall i: nat | i < |segs| :: IsName(segs[i])
    ensures [SLASH] + Flat(segs, true) == PathOf(segs) == [SLASH] + Flat(segs, false)
    decreases |segs|
  {
    if segs != [] {
      var front, last := segs[..|segs| - 1], segs[|segs| - 1];
      FlatIsPath(front);
      FlatJoin(front, [last], true);
      FlatJoin(front, [last], false);
      assert segs == front + [last];
      assert Flat([last], true) == last + [SLASH] + [] == Flat([last], false);
    }
  }

  predicate AllNames(segs: seq<Text>) { forall i: nat | i < |segs| :: IsName(segs[i]) && Decodable(segs[i]) }

  /** Entering a folder appends its name exactly when the name is decodable. */
  lemma EnterAppends(segs: seq<Text>, name: Text)
    requires AllNames(segs) && EncodeURIComponent(name).Some?
    ensures EnterRequest(PathOf(segs), name).Some?
    ensures Decode(EnterRequest(PathOf(segs), name).value) == PathOf(segs + [name]) <==> Decodable(name)
  {
    hide EncodeTokens, Decode, SpellAll, Units, Decodable, EncodeSegments, Flat, IsName;
    SplitPath(segs);
    EmptyDecodable();
    var pieces := [[]] + segs + [[]];
    SlashToken();
    var ks := SegmentTokens(pieces, true, [Lit(SLASH)]);
    var ls := PieceTokens(name, ks);
    DecodeTokens(ls);
    FlatJoin([[]] + segs, [[]], true);
    FlatJoin([[]], segs, true);
    FlatEmpty();
    FlatIsPath(segs);
    DecodableTokens(name);
    assert (segs + [name])[..|segs|] == segs;
    assert Units(ls) == PathOf(segs) + Units(EncodeTokens(name).value) + [SLASH];
    SameMiddle(PathOf(segs), Units(EncodeTokens(name).value), name, [SLASH]);
  }

  lemma EmptyDecodable()
    ensures Decodable([])
  {
  }

  lemma FlatEmpty()
    ensures Flat([[]], true) == [] && Flat([[]], false) == [SLASH]
  {
    assert Flat([], false) == [];
  }

  lemma SameMiddle(p: Text, a: Text, b: Text, q: Text)
    ensures p + a + q == p + b + q <==> a == b
  {
    if p + a + q == p + b + q {
      assert |a| == |b|;
      assert (p + a + q)[|p|..|p| + |a|] == a && (p + b + q)[|p|..|p| + |b|] == b;
    }
  }

  /** Back drops the last name, and stays at the root. */
  lemma BackDrops(segs: seq<Text>)
    requires AllNames(segs)
    ensures BackRequest(PathOf(segs)).Some?
    ensures Decode(BackRequest(PathOf(segs)).value) == PathOf(if segs == [] then [] else segs[..|segs| - 1])
  {
    hide EncodeTokens, Decode, SpellAll, Units, Decodable, EncodeSegments, Flat, IsName;
    SplitPath(segs);
    EmptyDecodable();
    SlashToken();
    if segs == [] {
      DecodeTokens([Lit(SLASH)]);
    } else {
      var front := segs[..|segs| - 1];
      var pieces := [[]] + front;
      assert ([[]] + segs + [[]])[..|segs|] == pieces;
      EmptyTokens();
      var ks := SegmentTokens(pieces, false, []);
      DecodeTokens(ks);
      FlatJoin([[]], front, false);
      FlatEmpty();
      FlatIsPath(front);
    }
  }

  lemma EmptyTokens()
    ensures SpellAll([]) == [] && Units([]) == []
  {
  }

  // ---- Runs.

  function VisitAll(pathName: Text, clicks: seq<Click>): Text
    decreases |clicks|
  {
    if clicks == [] then pathName else VisitAll(Visit(pathName, clicks[0]), clicks[1..])
  }

  /** The stack that the answered clicks describe. */
  function Stack(segs: seq<Text>, clicks: seq<Click>): seq<Text>
    decreases |clicks|
  {
    if clicks == [] then segs
    else if !Answered(PathOf(segs), clicks[0]) then Stack(segs, clicks[1..])
    else if clicks[0].Enter? then Stack(segs + [clicks[0].name], clicks[1..])
    else Stack(if segs == [] then [] else segs[..|segs| - 1], clicks[1..])
  }

  predicate GoodClicks(clicks: seq<Click>) {
    forall i: nat | i < |clicks| && clicks[i].Enter? :: IsName(clicks[i].name) && Decodable(clicks[i].name)
  }

  /** In every run the path is the text of the stack of entered folders. */
  lemma {:induction false} PathIsStack(segs: seq<Text>, clicks: seq<Click>)
    requires AllNames(segs) && GoodClicks(clicks)
    ensures VisitAll(PathOf(segs), clicks) == PathOf(Stack(segs, clicks))
    ensures AllNames(Stack(segs, clicks))
    decreases |clicks|
  {
    hide EnterRequest, BackRequest, Decode, PathOf, IsName, Decodable, Lists;
    if clicks != [] {
      if !Answered(PathOf(segs), clicks[0]) {
        PathIsStack(segs, clicks[1..]);
      } else {
        match clicks[0]
        case Enter(name, _) =>
          DecoderUndoesEncoder(name);
          EnterAppends(segs, name);
          PathIsStack(segs + [name], clicks[1..]);
        case Back(_) =>
          BackDrops(segs);
          PathIsStack(if segs == [] then [] else segs[..|segs| - 1], clicks[1..]);
      }
    }
  }

  /**
   The path after a click, by what the reply lists: the entered folder, or the one above, when some collection at any
   place in it decodes to that path, and the old path otherwise.
   */
  lemma ReplyDecides(segs: seq<Text>, click: Click)
    requires AllNames(segs) && (click.Enter? ==> IsName(click.name) && Decodable(click.name))
    ensures var target := if click.Enter? then segs + [click.name] else if segs == [] then [] else segs[..|segs| - 1];
      && Visit(PathOf(segs), click) == PathOf(
           if exists i: nat :: i < |click.hrefs| && Decode(click.hrefs[i]) == PathOf(target) then target else segs)
      && Request(PathOf(segs), click).Some? && Decode(Request(PathOf(segs), click).value) == PathOf(target)
  {
    hide EnterRequest, BackRequest, Decode, PathOf, IsName, Decodable;
    match click
    case Enter(name, _) =>
      DecoderUndoesEncoder(name);
      EnterAppends(segs, name);
    case Back(_) => BackDrops(segs);
  }

  lemma BackUndoesEnter(segs: seq<Text>, enter: Click, back: Click)
    requires AllNames(segs) && enter.Enter? && IsName(enter.name) && Decodable(enter.name) && back.Back?
    requires Answered(PathOf(segs), enter) && Answered(Visit(PathOf(segs), enter), back)
    ensures Visit(PathOf(segs), enter) == PathOf(segs + [enter.name])
    ensures Visit(Visit(PathOf(segs), enter), back) == PathOf(segs)
  {
    hide EnterRequest, BackRequest, Decode, PathOf, IsName, Decodable, Lists;
    DecoderUndoesEncoder(enter.name);
    EnterAppends(segs, enter.name);
    BackDrops(segs + [enter.name]);
    assert (segs + [enter.name])[..|segs|] == segs;
  }
}
