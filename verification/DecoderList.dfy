/** The list of preferred decoders (ffmpeg.c find_preferred and
    open_preferred_codec): names separated by commas, with optional white space
    around them. */
module DecoderList {
  import opened Wrappers

  /** AVCodec: its name, and the format it decodes. */
  datatype Codec = Codec(name: string, id: int)

  /** Names this long do not fit the token buffer. */
  const BUFFER_SIZE: nat := 32

  predicate IsSpace(ch: char) {
    ch == '\t' || ch == '\n' || ch == '\r' || ch == ' '
  }

  // ------------------------------------------------ what the list means

  /** Where the first comma is, or the end. */
  function Comma(s: string): (i: nat)
    ensures i <= |s| && ',' !in s[..i] && (i < |s| ==> s[i] == ',')
  {
    if s == "" || s[0] == ',' then 0
    else
      assert forall i :: 0 < i <= |s| ==> s[..i] == [s[0]] + s[1..][..i - 1];
      1 + Comma(s[1..])
  }

  /** The pieces between commas. */
  function Pieces(s: string): (pieces: seq<string>)
    ensures pieces != []
    decreases |s|
  {
    var i := Comma(s);
    if i == |s| then [s] else [s[..i]] + Pieces(s[i + 1..])
  }

  function Join(pieces: seq<string>): string
    requires pieces != []
  {
    if |pieces| == 1 then pieces[0] else pieces[0] + "," + Join(pieces[1..])
  }

  /** Pieces are comma-free and put together again give the list. */
  lemma {:induction false} PiecesPartition(s: string)
    ensures Join(Pieces(s)) == s
    ensures forall piece :: piece in Pieces(s) ==> ',' !in piece
    decreases |s|
  {
    var i := Comma(s);
    if i < |s| {
      PiecesPartition(s[i + 1..]);
      assert Pieces(s)[1..] == Pieces(s[i + 1..]);
      assert s == s[..i] + "," + s[i + 1..];
    } else {
      assert s[..i] == s;
    }
  }

  function TrimLeft(s: string): string {
    if s != "" && IsSpace(s[0]) then TrimLeft(s[1..]) else s
  }

  function TrimRight(s: string): string {
    if s != "" && IsSpace(s[|s| - 1]) then TrimRight(s[..|s| - 1]) else s
  }

  function Trim(s: string): string {
    TrimRight(TrimLeft(s))
  }

  /** Trimming takes white space off both ends, and all of it. */
  lemma TrimMeans(s: string)
    ensures exists left, right :: Blank(left) && Blank(right) && s == left + Trim(s) + right
    ensures Trim(s) != "" ==> !Blank(Trim(s)[..1]) && !Blank(Trim(s)[|Trim(s)| - 1..])
  {
    var left := TrimLeftMeans(s);
    var right := TrimRightMeans(TrimLeft(s));
    assert Blank(left) && Blank(right) && s == left + Trim(s) + right;
    if Trim(s) != "" {
      assert Trim(s)[0] in Trim(s)[..1] && Trim(s)[|Trim(s)| - 1] in Trim(s)[|Trim(s)| - 1..];
    }
  }

  ghost predicate AllSpace(s: string) {
    forall i :: 0 <= i < |s| ==> IsSpace(s[i])
  }

  /** Nothing but blanks, tabs and line ends. */
  ghost predicate Blank(s: string) {
    forall ch :: ch in s ==> ch == ' ' || ch == '\t' || ch == '\r' || ch == '\n'
  }

  lemma {:induction false} TrimLeftMeans(s: string) returns (left: string)
    ensures AllSpace(left) && s == left + TrimLeft(s)
    ensures TrimLeft(s) != "" ==> !IsSpace(TrimLeft(s)[0])
  {
    left := "";
    if s != "" && IsSpace(s[0]) {
      var rest := TrimLeftMeans(s[1..]);
      left := [s[0]] + rest;
      assert s == [s[0]] + s[1..];
    }
  }

  lemma {:induction false} TrimRightMeans(s: string) returns (right: string)
    ensures AllSpace(right) && s == TrimRight(s) + right
    ensures TrimRight(s) != "" ==> TrimRight(s)[0] == s[0] && !IsSpace(TrimRight(s)[|TrimRight(s)| - 1])
  {
    right := "";
    if s != "" && IsSpace(s[|s| - 1]) {
      var rest := TrimRightMeans(s[..|s| - 1]);
      right := rest + [s[|s| - 1]];
      assert s == s[..|s| - 1] + [s[|s| - 1]];
    }
  }

  /** The decoder a piece of the list names, if it is usable for id. */
  function Choice(finder: string -> Option<Codec>, id: int, piece: string): Option<Codec> {
    if piece == "" || |Trim(piece)| >= BUFFER_SIZE then None
    else
      match finder(Trim(piece))
      case None => None
      case Some(c) => if c.id == id then Some(c) else None
  }

  function Choices(finder: string -> Option<Codec>, id: int, pieces: seq<string>): seq<Codec> {
    if pieces == [] then [] else AsSeq(Choice(finder, id, pieces[0])) + Choices(finder, id, pieces[1..])
  }

  function AsSeq(o: Option<Codec>): seq<Codec> {
    match o
    case None => []
    case Some(c) => [c]
  }

  /** The usable decoders of a list, in order. */
  function Preferred(finder: string -> Option<Codec>, id: int, list: string): seq<Codec> {
    Choices(finder, id, Pieces(list))
  }

  /** A piece names a decoder c for id: it is not empty, its name without white
      space is shorter than 32 characters, and it is that of c, which is for id. */
  ghost predicate Names(finder: string -> Option<Codec>, id: int, piece: string, c: Codec) {
    piece != "" && |Trim(piece)| < 32 && finder(Trim(piece)) == Some(c) && c.id == id
  }

  /** at lists, in order and each once, the pieces that name a decoder, and chosen
      those decoders. */
  ghost predicate Lists(
    finder: string -> Option<Codec>, id: int, pieces: seq<string>, at: seq<nat>, chosen: seq<Codec>)
  {
    && |at| == |chosen|
    && (forall m :: 0 <= m < |at| ==> at[m] < |pieces| && Names(finder, id, pieces[at[m]], chosen[m]))
    && (forall m, n :: 0 <= m < n < |at| ==> at[m] < at[n])
    && (forall i, c :: 0 <= i < |pieces| && Names(finder, id, pieces[i], c) ==> i in at)
  }

  /** The usable decoders are those that the pieces of the list name, in their
      order. */
  lemma PreferredMeans(finder: string -> Option<Codec>, id: int, list: string)
    ensures exists at: seq<nat> :: Lists(finder, id, Pieces(list), at, Preferred(finder, id, list))
  {
    hide Lists, Choices;
    var at := ChoicesMean(finder, id, Pieces(list));
    assert Lists(finder, id, Pieces(list), at, Preferred(finder, id, list));
  }

  lemma {:induction false} ChoicesMean(finder: string -> Option<Codec>, id: int, pieces: seq<string>)
    returns (at: seq<nat>)
    ensures Lists(finder, id, pieces, at, Choices(finder, id, pieces))
    decreases |pieces|
  {
    at := [];
    if pieces != [] {
      hide Lists;
      var rest := ChoicesMean(finder, id, pieces[1..]);
      at := ListsMore(finder, id, pieces, rest, Choices(finder, id, pieces[1..]));
    }
  }

  lemma ChoiceNames(finder: string -> Option<Codec>, id: int, piece: string)
    ensures forall c :: Names(finder, id, piece, c) <==> Choice(finder, id, piece) == Some(c)
  {
  }

  /** One more piece in front. */
  lemma ListsMore(
    finder: string -> Option<Codec>, id: int, pieces: seq<string>, rest: seq<nat>, chosen: seq<Codec>)
    returns (at: seq<nat>)
    requires pieces != [] && Lists(finder, id, pieces[1..], rest, chosen)
    ensures Lists(finder, id, pieces, at, AsSeq(Choice(finder, id, pieces[0])) + chosen)
  {
    var later: seq<nat> := seq(|rest|, m requires 0 <= m < |rest| => rest[m] + 1);
    Moved(finder, id, pieces, rest, later, chosen);
    ChoiceNames(finder, id, pieces[0]);
    hide Names, Choice;
    match Choice(finder, id, pieces[0])
    case None =>
      at := later;
      assert [] + chosen == chosen;
    case Some(c) =>
      at := [0] + later;
      Prepended(finder, id, pieces, later, chosen, c);
  }

  lemma Prepended(finder: string -> Option<Codec>, id: int, pieces: seq<string>,
                  later: seq<nat>, chosen: seq<Codec>, c: Codec)
    requires pieces != [] && |later| == |chosen| && Names(finder, id, pieces[0], c)
    requires forall m :: 0 <= m < |later| ==> 0 < later[m] < |pieces| && Names(finder, id, pieces[later[m]], chosen[m])
    requires forall m, n :: 0 <= m < n < |later| ==> later[m] < later[n]
    requires forall i, d :: 0 < i < |pieces| && Names(finder, id, pieces[i], d) ==> i in later
    ensures Lists(finder, id, pieces, [0] + later, [c] + chosen)
  {
    hide Names;
    var at := [0] + later;
    forall m | 0 <= m < |at| ensures at[m] < |pieces| && Names(finder, id, pieces[at[m]], ([c] + chosen)[m]) {
      if m > 0 { assert at[m] == later[m - 1] && ([c] + chosen)[m] == chosen[m - 1]; }
    }
    forall i, d | 0 <= i < |pieces| && Names(finder, id, pieces[i], d) ensures i in at {
      if i == 0 { assert at[0] == 0; }
    }
  }

  /** The pieces after the first one, counted from the first one. */
  lemma Moved(finder: string -> Option<Codec>, id: int, pieces: seq<string>,
              rest: seq<nat>, later: seq<nat>, chosen: seq<Codec>)
    requires pieces != [] && Lists(finder, id, pieces[1..], rest, chosen)
    requires |later| == |rest| && forall m :: 0 <= m < |rest| ==> later[m] == rest[m] + 1
    ensures forall m :: 0 <= m < |later| ==> 0 < later[m] < |pieces| && Names(finder, id, pieces[later[m]], chosen[m])
    ensures forall m, n :: 0 <= m < n < |later| ==> later[m] < later[n]
    ensures forall i, c :: 0 < i < |pieces| && Names(finder, id, pieces[i], c) ==> i in later
  {
    hide Names;
    forall i, c | 0 < i < |pieces| && Names(finder, id, pieces[i], c) ensures i in later {
      assert pieces[1..][i - 1] == pieces[i];
      var m :| 0 <= m < |rest| && rest[m] == i - 1;
      assert later[m] == i;
    }
    assert forall i :: 0 < i < |pieces| ==> pieces[1..][i - 1] == pieces[i];
  }

  /** What is left of the list once its first piece is dealt with. */
  lemma PreferredStep(finder: string -> Option<Codec>, id: int, list: string)
    ensures var i := Comma(list);
            Preferred(finder, id, list)
            == AsSeq(Choice(finder, id, list[..i])) + (if i < |list| then Preferred(finder, id, list[i + 1..]) else [])
  {
    hide Comma, Choice, AsSeq, Choices, Pieces;
    var i := Comma(list);
    var rest := if i < |list| then Pieces(list[i + 1..]) else [];
    PiecesStep(list);
    ChoicesStep(finder, id, list[..i], rest);
    NoChoices(finder, id);
  }

  lemma PiecesStep(list: string)
    ensures var i := Comma(list);
            Pieces(list) == [list[..i]] + if i < |list| then Pieces(list[i + 1..]) else []
  {
    hide Comma;
    assert list[..|list|] == list;
  }

  lemma ChoicesStep(finder: string -> Option<Codec>, id: int, piece: string, rest: seq<string>)
    ensures Choices(finder, id, [piece] + rest) == AsSeq(Choice(finder, id, piece)) + Choices(finder, id, rest)
  {
    assert ([piece] + rest)[1..] == rest;
  }

  lemma NoChoices(finder: string -> Option<Codec>, id: int)
    ensures Choices(finder, id, []) == []
  {
  }

  // ------------------------------------------------ find_preferred

  /** The two trimming loops: white space off the token at [token, token + len). */
  method TrimToken(decoders: string, token: nat, len: nat) returns (token': nat, len': nat)
    requires token + len <= |decoders|
    ensures token' + len' <= |decoders|
    ensures decoders[token'..token' + len'] == Trim(decoders[token..token + len])
  {
    token', len' := token, len;
    while len' > 0 && IsSpace(decoders[token'])
      invariant token' + len' <= |decoders|
      invariant TrimLeft(decoders[token'..token' + len']) == TrimLeft(decoders[token..token + len])
    {
      ghost var t := decoders[token'..token' + len'];
      assert t[0] == decoders[token'] && t[1..] == decoders[token' + 1..token' + 1 + (len' - 1)];
      assert TrimLeft(t) == TrimLeft(t[1..]);
      token', len' := token' + 1, len' - 1;
    }
    ghost var left := decoders[token'..token' + len'];
    assert TrimLeft(left) == left;
    while len' > 0 && IsSpace(decoders[token' + len' - 1])
      invariant token' + len' <= |decoders|
      invariant TrimRight(decoders[token'..token' + len']) == TrimRight(left)
    {
      ghost var t := decoders[token'..token' + len'];
      assert t[len' - 1] == decoders[token' + len' - 1] && t[..len' - 1] == decoders[token'..token' + (len' - 1)];
      assert TrimRight(t) == TrimRight(t[..len' - 1]);
      len' := len' - 1;
    }
  }

  /** ffmpeg.c find_preferred: the next usable decoder from pos on, leaving pos
      behind the piece that named it. */
  method FindPreferred(finder: string -> Option<Codec>, decoders: string, codec: Codec, pos: nat)
    returns (found: Option<Codec>, pos': nat)
    requires pos <= |decoders|
    ensures pos <= pos' <= |decoders| && (found.Some? ==> pos < pos')
    ensures var before := Preferred(finder, codec.id, decoders[pos..]);
            var after := Preferred(finder, codec.id, decoders[pos'..]);
            before == AsSeq(found) + after && (found.None? ==> before == [] && pos' == |decoders|)
  {
    hide Comma, Trim, Preferred;
    pos' := pos;
    while pos' < |decoders|
      invariant pos <= pos' <= |decoders|
      invariant Preferred(finder, codec.id, decoders[pos..]) == Preferred(finder, codec.id, decoders[pos'..])
    {
      ghost var list := decoders[pos'..];
      PreferredStep(finder, codec.id, list);
      var token := pos';
      if decoders[token] == ',' {
        assert Comma(list) == 0 && list[..0] == "";
        assert list[1..] == decoders[pos' + 1..];
        pos' := pos' + 1;
        continue;
      }
      var tokenLen := Comma(decoders[token..]);
      var sep := tokenLen < |decoders| - token;
      pos' := pos' + tokenLen + if sep then 1 else 0;
      assert list[..tokenLen] == decoders[token..token + tokenLen];
      assert sep ==> list[tokenLen + 1..] == decoders[pos'..];
      NothingLeft(finder, codec.id);
      assert !sep ==> decoders[pos'..] == "";
      token, tokenLen := TrimToken(decoders, token, tokenLen);
      assert list[..Comma(list)] != "";
      if tokenLen >= BUFFER_SIZE { continue; }
      var c := finder(decoders[token..token + tokenLen]);
      if c.None? || c.value.id != codec.id { continue; }
      return c, pos';
    }
    assert decoders[pos'..] == "";
    NothingLeft(finder, codec.id);
    found := None;
  }

  lemma NothingLeft(finder: string -> Option<Codec>, id: int)
    ensures Preferred(finder, id, "") == []
  {
    PreferredStep(finder, id, "");
  }

  // ------------------------------------------------ open_preferred_codec

  datatype OpenResult = Opened(codec: Codec) | OpenFailed | SeekFailed

  /** The codec to open out of candidates: the first that opens, else the
      default one. After each that does not the file is rewound, which may
      fail. */
  function OpenFirst(candidates: seq<Codec>, codec: Codec, opens: Codec -> bool, rewinds: Codec -> bool): OpenResult {
    if candidates == [] then (if opens(codec) then Opened(codec) else OpenFailed)
    else if opens(candidates[0]) then Opened(candidates[0])
    else if !rewinds(candidates[0]) then SeekFailed
    else OpenFirst(candidates[1..], codec, opens, rewinds)
  }

  /** None of the first i candidates opens, and after each of them the file is
      rewound. */
  ghost predicate AllFail(candidates: seq<Codec>, i: nat, opens: Codec -> bool, rewinds: Codec -> bool)
    requires i <= |candidates|
  {
    forall j :: 0 <= j < i ==> !opens(candidates[j]) && rewinds(candidates[j])
  }

  /** The codec opened is the first candidate that opens, or the default one when
      none does, provided that rewinding works after each one before; the first
      rewind that fails ends it, and opening fails only when nothing opens. */
  lemma {:induction false} OpenFirstMeans(
    candidates: seq<Codec>, codec: Codec, opens: Codec -> bool, rewinds: Codec -> bool)
    ensures match OpenFirst(candidates, codec, opens, rewinds)
            case Opened(c) =>
              && opens(c)
              && ((exists i :: 0 <= i < |candidates| && candidates[i] == c && AllFail(candidates, i, opens, rewinds))
                  || (c == codec && AllFail(candidates, |candidates|, opens, rewinds)))
            case OpenFailed => !opens(codec) && AllFail(candidates, |candidates|, opens, rewinds)
            case SeekFailed =>
              exists i :: 0 <= i < |candidates| && AllFail(candidates, i, opens, rewinds)
                          && !opens(candidates[i]) && !rewinds(candidates[i])
  {
    if candidates == [] {
    } else if opens(candidates[0]) || !rewinds(candidates[0]) {
      assert AllFail(candidates, 0, opens, rewinds);
    } else {
      var rest := candidates[1..];
      OpenFirstMeans(rest, codec, opens, rewinds);
      forall i: nat | i <= |rest| && AllFail(rest, i, opens, rewinds)
        ensures AllFail(candidates, i + 1, opens, rewinds)
      {
        forall j | 0 <= j < i + 1 ensures !opens(candidates[j]) && rewinds(candidates[j]) {
          if j > 0 { assert candidates[j] == rest[j - 1]; }
        }
      }
      assert forall i :: 0 <= i < |rest| ==> rest[i] == candidates[i + 1];
    }
  }

  /** ffmpeg.c open_preferred_codec. */
  method OpenPreferredCodec(
    finder: string -> Option<Codec>, decoders: Option<string>, codec: Codec,
    opens: Codec -> bool, rewinds: Codec -> bool)
    returns (r: OpenResult)
    ensures r == OpenFirst(
                   if decoders.Some? then Preferred(finder, codec.id, decoders.value) else [], codec, opens, rewinds)
  {
    if decoders.Some? {
      var list := decoders.value;
      hide Preferred;
      assert list[0..] == list;
      var preferred, pos := FindPreferred(finder, list, codec, 0);
      while preferred.Some?
        invariant pos <= |list|
        invariant preferred.None? ==> AsSeq(preferred) + Preferred(finder, codec.id, list[pos..]) == []
        invariant OpenFirst(Preferred(finder, codec.id, list), codec, opens, rewinds)
                  == OpenFirst(AsSeq(preferred) + Preferred(finder, codec.id, list[pos..]), codec, opens, rewinds)
        decreases |list| - pos, preferred.Some?
      {
        ghost var after := Preferred(finder, codec.id, list[pos..]);
        assert ([preferred.value] + after)[1..] == after;
        if opens(preferred.value) { return Opened(preferred.value); }
        if !rewinds(preferred.value) { return SeekFailed; }
        preferred, pos := FindPreferred(finder, list, codec, pos);
      }
    }
    r := if opens(codec) then Opened(codec) else OpenFailed;
  }
}
