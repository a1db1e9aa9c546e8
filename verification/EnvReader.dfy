/** The reader for the "env" object of the JSON configuration, from just after its opening brace. */
module EnvReader {
  import opened Common

  const MAX_ENV: nat := 32
  const KEY_BUF: nat := 64
  const VAL_BUF: nat := 256

  /** *(s + p) of a NUL-terminated string. */
  function Ch(s: string, p: nat): char {
    if p < |s| then s[p] else '\0'
  }

  predicate IsWs(c: char) {
    c == ' ' || c == '\t' || c == '\n' || c == '\r'
  }

  function Skip(s: string, p: nat): (q: nat)
    ensures p <= q && (p <= |s| ==> q <= |s|) && !IsWs(Ch(s, q))
    decreases |s| - p
  {
    if IsWs(Ch(s, p)) then Skip(s, p + 1) else p
  }

  method SkipWs(s: string, p: nat) returns (q: nat)
    ensures q == Skip(s, p)
  {
    q := p;
    while IsWs(Ch(s, q))
      invariant Skip(s, q) == Skip(s, p)
      decreases |s| - q
    {
      q := q + 1;
    }
  }

  /** Where the next character to copy sits: a backslash is stepped over if anything follows it. */
  function Unescaped(s: string, p: nat): nat {
    if Ch(s, p) == '\\' && Ch(s, p + 1) != '\0' then p + 1 else p
  }

  predicate AtEnd(s: string, p: nat, room: nat) {
    Ch(s, p) == '\0' || Ch(s, p) == '"' || room == 0
  }

  /** The copy loop with room for that many characters: what it copies and where it stops. */
  function Copied(s: string, p: nat, room: nat): string
    decreases room
  {
    if AtEnd(s, p, room) then "" else [Ch(s, Unescaped(s, p))] + Copied(s, Unescaped(s, p) + 1, room - 1)
  }

  function CopyEnd(s: string, p: nat, room: nat): (q: nat)
    ensures p <= q && (p <= |s| ==> q <= |s|)
    decreases room
  {
    if AtEnd(s, p, room) then p else CopyEnd(s, Unescaped(s, p) + 1, room - 1)
  }

  datatype Parsed = NoString | Str(text: string, next: nat)

  function ParseString(s: string, p: nat, maxlen: nat): (r: Parsed)
    requires maxlen > 0
    ensures r.Str? && p <= |s| ==> p < r.next <= |s|
  {
    var q := Skip(s, p);
    if Ch(s, q) != '"' then NoString
    else
      var e := CopyEnd(s, q + 1, maxlen - 1);
      Str(Copied(s, q + 1, maxlen - 1), if Ch(s, e) == '"' then e + 1 else e)
  }

  /** One round of the copy loop. */
  lemma CopyRound(s: string, p: nat, out: string, room: nat)
    requires !AtEnd(s, p, room)
    ensures var q := Unescaped(s, p);
      && out + [Ch(s, q)] + Copied(s, q + 1, room - 1) == out + Copied(s, p, room)
      && CopyEnd(s, q + 1, room - 1) == CopyEnd(s, p, room)
  {
    var q := Unescaped(s, p);
    assert Copied(s, p, room) == [Ch(s, q)] + Copied(s, q + 1, room - 1);
  }

  lemma CopyStops(s: string, p: nat, room: nat)
    requires AtEnd(s, p, room)
    ensures Copied(s, p, room) == "" && CopyEnd(s, p, room) == p
  {
  }

  method ParseStringLoop(s: string, start: nat, maxlen: nat) returns (r: Parsed)
    requires maxlen > 0
    ensures r == ParseString(s, start, maxlen)
  {
    hide Skip, Copied, CopyEnd;
    var p := SkipWs(s, start);
    if Ch(s, p) != '"' {
      return NoString;
    }
    p := p + 1;
    ghost var p0 := p;
    var out: string := "";
    while Ch(s, p) != '\0' && Ch(s, p) != '"' && |out| < maxlen - 1
      invariant |out| <= maxlen - 1
      invariant out + Copied(s, p, maxlen - 1 - |out|) == Copied(s, p0, maxlen - 1)
      invariant CopyEnd(s, p, maxlen - 1 - |out|) == CopyEnd(s, p0, maxlen - 1)
      decreases maxlen - |out|
    {
      CopyRound(s, p, out, maxlen - 1 - |out|);
      var q := p;
      if Ch(s, q) == '\\' && Ch(s, q + 1) != '\0' {
        q := q + 1;
      }
      out := out + [Ch(s, q)];
      p := q + 1;
    }
    CopyStops(s, p, maxlen - 1 - |out|);
    if Ch(s, p) == '"' {
      return Str(out, p + 1);
    }
    return Str(out, p);
  }

  /** Stopped: the loop ended at position pos. Broken: a string was missing. Overrun: the pointer
      was advanced past the terminator. */
  datatype Result = Stopped(env: seq<Pair>, pos: nat) | Broken(env: seq<Pair>) | Overrun(env: seq<Pair>)

  /** The position after an optional colon. */
  function AfterColon(s: string, p: nat): (q: nat)
    ensures p <= q && (p <= |s| ==> q <= |s|)
  {
    var c := Skip(s, p);
    if Ch(s, c) == ':' then Skip(s, c + 1) else c
  }

  function AfterComma(s: string, p: nat): (q: nat)
    ensures p <= q && (p <= |s| ==> q <= |s|)
  {
    var c := Skip(s, p);
    if Ch(s, c) == ',' then c + 1 else c
  }

  function ReadEnv(s: string, p: nat, env: seq<Pair>): Result
    decreases |s| + 1 - p
  {
    if p > |s| then Overrun(env)
    else if Ch(s, p) == '\0' || Ch(s, p) == '}' || |env| >= MAX_ENV then Stopped(env, p)
    else
      var q := Skip(s, p);
      if Ch(s, q) != '"' then ReadEnv(s, q + 1, env)
      else
        var k := ParseString(s, q, KEY_BUF);
        if k.NoString? then Broken(env)
        else
          var v := ParseString(s, AfterColon(s, k.next), VAL_BUF);
          if v.NoString? then Broken(env)
          else ReadEnv(s, AfterComma(s, v.next), env + [Pair(k.text, v.text)])
  }

  /** The loop as written. */
  method ReadEnvLoop(s: string, start: nat) returns (r: Result)
    requires start <= |s|
    ensures r == ReadEnv(s, start, [])
  {
    hide Skip, Copied, CopyEnd;
    var p, env: seq<Pair> := start, [];
    while p <= |s| && Ch(s, p) != '\0' && Ch(s, p) != '}' && |env| < MAX_ENV
      invariant ReadEnv(s, p, env) == ReadEnv(s, start, [])
      decreases |s| + 1 - p
    {
      var q := SkipWs(s, p);
      if Ch(s, q) == '"' {
        var k := ParseStringLoop(s, q, KEY_BUF);
        if k.NoString? {
          return Broken(env);
        }
        var c := SkipWs(s, k.next);
        if Ch(s, c) == ':' {
          c := SkipWs(s, c + 1);
        }
        var v := ParseStringLoop(s, c, VAL_BUF);
        if v.NoString? {
          return Broken(env);
        }
        env := env + [Pair(k.text, v.text)];
        p := SkipWs(s, v.next);
        if Ch(s, p) == ',' {
          p := p + 1;
        }
      } else {
        p := q + 1;
      }
    }
    if p > |s| {
      return Overrun(env);
    }
    return Stopped(env, p);
  }

  // ---- The printer --------------------------------------------------------

  function EscChar(c: char): string {
    if c == '"' || c == '\\' then ['\\', c] else [c]
  }

  function Esc(x: string): string {
    if x == "" then "" else EscChar(x[0]) + Esc(x[1..])
  }

  /** A pair and the white space around its four tokens. */
  datatype Item = Item(w0: string, key: string, w1: string, w2: string, val: string, w3: string)

  predicate Blank(w: string) {
    forall i | 0 <= i < |w| :: IsWs(w[i])
  }

  predicate GoodItem(it: Item) {
    && Blank(it.w0) && Blank(it.w1) && Blank(it.w2) && Blank(it.w3)
    && '\0' !in it.key && '\0' !in it.val
  }

  /** Fits the reader's buffers. */
  predicate FitsBuffers(it: Item) {
    |it.key| < KEY_BUF && |it.val| < VAL_BUF
  }

  function Quote(x: string): string {
    "\"" + Esc(x) + "\""
  }

  function ItemText(it: Item): string {
    it.w0 + Quote(it.key) + it.w1 + ":" + it.w2 + Quote(it.val) + it.w3
  }

  /** Items separated by commas, without the closing brace. */
  function ObjectText(items: seq<Item>): string {
    if items == [] then ""
    else ItemText(items[0]) + (if |items| > 1 then "," + ObjectText(items[1..]) else "")
  }

  function Pairs(items: seq<Item>): seq<Pair> {
    if items == [] then [] else [Pair(items[0].key, items[0].val)] + Pairs(items[1..])
  }

  // ---- Round trip ---------------------------------------------------------

  lemma {:induction false} SkipBlank(s: string, p: nat, w: string)
    requires At(s, p, w) && Blank(w) && !IsWs(Ch(s, p + |w|))
    ensures Skip(s, p) == p + |w|
    decreases |w|
  {
    if w != "" {
      assert s[p + 0] == w[0];
      AtPart(s, p, w, 1, w[1..]);
      SkipBlank(s, p + 1, w[1..]);
    }
  }

  lemma EscSplit(x: string)
    requires x != ""
    ensures Esc(x) + "\"" == EscChar(x[0]) + (Esc(x[1..]) + "\"") && |Esc(x)| == |EscChar(x[0])| + |Esc(x[1..])|
  {
  }

  /** The copy loop's view of one escaped character. */
  lemma CharUnescapes(s: string, p: nat, c: char)
    requires At(s, p, EscChar(c)) && c != '\0'
    ensures Unescaped(s, p) + 1 == p + |EscChar(c)| && Ch(s, Unescaped(s, p)) == c
    ensures Ch(s, p) != '\0' && Ch(s, p) != '"'
  {
    var head := EscChar(c);
    assert s[p] == head[0];
    assert |head| == 2 ==> s[p + 1] == head[1];
  }

  /** The copy loop undoes escaping, and stops on the closing quote when there was room. */
  lemma {:induction false} CopyUnescapes(s: string, p: nat, x: string, room: nat)
    requires At(s, p, Esc(x) + "\"") && '\0' !in x
    ensures |x| <= room ==> Copied(s, p, room) == x && CopyEnd(s, p, room) == p + |Esc(x)|
    ensures |x| > room ==> Copied(s, p, room) == x[..room]
    decreases |x|
  {
    hide Copied, CopyEnd, Unescaped, EscChar;
    if x == "" {
      assert Ch(s, p) == (Esc(x) + "\"")[0];
      CopyStops(s, p, room);
    } else if room == 0 {
      CopyStops(s, p, room);
      assert x[..0] == "";
    } else {
      EscSplit(x);
      AtSplit(s, p, EscChar(x[0]), Esc(x[1..]) + "\"");
      CharUnescapes(s, p, x[0]);
      CopyUnescapes(s, p + |EscChar(x[0])|, x[1..], room - 1);
      CopyRound(s, p, "", room);
      hide At, Esc, Ch;
      assert "" + Copied(s, p, room) == Copied(s, p, room) && "" + [x[0]] == [x[0]];
      assert [x[0]] + x[1..] == x;
      assert |x| > room ==> [x[0]] + x[1..][..room - 1] == x[..room];
    }
  }

  /** A quoted string comes back whole, and the position is just past it, exactly when it fits; a longer
      one is cut to what the buffer holds besides its terminator. */
  lemma StringRoundTrip(s: string, p: nat, x: string, maxlen: nat)
    requires maxlen > 0 && At(s, p, Quote(x)) && '\0' !in x
    ensures ParseString(s, p, maxlen) == Str(x, p + |Quote(x)|) <==> |x| < maxlen
    ensures |x| >= maxlen ==> ParseString(s, p, maxlen).Str? && ParseString(s, p, maxlen).text == x[..maxlen - 1]
  {
    hide Skip, Copied, CopyEnd, Esc;
    assert Quote(x) == "\"" + (Esc(x) + "\"");
    AtSplit(s, p, "\"", Esc(x) + "\"");
    assert Ch(s, p) == "\""[0];
    SkipBlank(s, p, "");
    CopyUnescapes(s, p + 1, x, maxlen - 1);
    AtSplit(s, p + 1, Esc(x), "\"");
    assert Ch(s, p + 1 + |Esc(x)|) == "\""[0];
    hide At, Ch;
    if |x| >= maxlen {
      assert |x[..maxlen - 1]| < |x|;
    }
  }

  /** Where the tokens of an item are. */
  lemma ItemPlaces(s: string, p: nat, it: Item)
    requires At(s, p, ItemText(it))
    ensures var p1 := p + |it.w0|;
      var p2 := p1 + |Quote(it.key)|;
      var p3 := p2 + |it.w1|;
      var p4 := p3 + 1 + |it.w2|;
      var p5 := p4 + |Quote(it.val)|;
      && At(s, p, it.w0) && At(s, p1, Quote(it.key)) && At(s, p2, it.w1) && At(s, p3, ":")
      && At(s, p3 + 1, it.w2) && At(s, p4, Quote(it.val)) && At(s, p5, it.w3) && p5 + |it.w3| == p + |ItemText(it)|
  {
    hide Quote;
    var k, v := Quote(it.key), Quote(it.val);
    AtSplit(s, p, it.w0 + k + it.w1 + ":" + it.w2 + v, it.w3);
    AtSplit(s, p, it.w0 + k + it.w1 + ":" + it.w2, v);
    AtSplit(s, p, it.w0 + k + it.w1 + ":", it.w2);
    AtSplit(s, p, it.w0 + k + it.w1, ":");
    AtSplit(s, p, it.w0 + k, it.w1);
    AtSplit(s, p, it.w0, k);
  }

  lemma QuoteStarts(s: string, p: nat, x: string)
    requires At(s, p, Quote(x))
    ensures Ch(s, p) == '"'
  {
    assert s[p] == Quote(x)[0];
  }

  /** White space and then a quoted string that fits. */
  lemma StringReads(s: string, p: nat, w: string, x: string, maxlen: nat)
    requires At(s, p, w) && At(s, p + |w|, Quote(x)) && Blank(w) && '\0' !in x && |x| < maxlen
    ensures Skip(s, p) == p + |w| && Ch(s, p + |w|) == '"'
    ensures ParseString(s, p + |w|, maxlen) == Str(x, p + |w| + |Quote(x)|)
    ensures p < |s| && Ch(s, p) != '\0' && Ch(s, p) != '}'
  {
    hide Skip, ParseString, Quote;
    QuoteStarts(s, p + |w|, x);
    SkipBlank(s, p, w);
    StringRoundTrip(s, p + |w|, x, maxlen);
    assert w != "" ==> Ch(s, p) == w[0];
  }

  lemma ColonReads(s: string, p: nat, w1: string, w2: string, x: string)
    requires At(s, p, w1) && At(s, p + |w1|, ":") && At(s, p + |w1| + 1, w2) && At(s, p + |w1| + 1 + |w2|, Quote(x))
    requires Blank(w1) && Blank(w2)
    ensures AfterColon(s, p) == p + |w1| + 1 + |w2|
  {
    hide Skip, Quote;
    var c := p + |w1|;
    assert Ch(s, c) == ":"[0];
    QuoteStarts(s, c + 1 + |w2|, x);
    SkipBlank(s, p, w1);
    SkipBlank(s, c + 1, w2);
  }

  /** Where an item's tokens start and where it ends. */
  datatype Places = Places(key: nat, colon: nat, val: nat, tail: nat, end: nat)

  function PlacesOf(p: nat, it: Item): Places {
    var k := p + |it.w0|;
    var c := k + |Quote(it.key)|;
    var v := c + |it.w1| + 1 + |it.w2|;
    Places(k, c, v, v + |Quote(it.val)|, v + |Quote(it.val)| + |it.w3|)
  }

  /** What the reader makes of an item, token by token. */
  ghost predicate Reads(s: string, p: nat, it: Item, at: Places) {
    && p < |s| && Ch(s, p) != '\0' && Ch(s, p) != '}' && Skip(s, p) == at.key && Ch(s, at.key) == '"'
    && ParseString(s, at.key, KEY_BUF) == Str(it.key, at.colon)
    && AfterColon(s, at.colon) == at.val
    && ParseString(s, at.val, VAL_BUF) == Str(it.val, at.tail)
    && Skip(s, at.tail) == at.end
  }

  lemma ItemReads(s: string, p: nat, it: Item)
    requires At(s, p, ItemText(it)) && GoodItem(it) && FitsBuffers(it)
    requires !IsWs(Ch(s, p + |ItemText(it)|))
    ensures Reads(s, p, it, PlacesOf(p, it)) && PlacesOf(p, it).end == p + |ItemText(it)|
  {
    ItemPlaces(s, p, it);
    KeyReads(s, p, it);
    ValueReads(s, p, it);
    hide Skip, ParseString, AfterColon, Quote, At, Blank, Ch;
  }

  lemma KeyReads(s: string, p: nat, it: Item)
    requires At(s, p, ItemText(it)) && GoodItem(it) && FitsBuffers(it)
    ensures var at := PlacesOf(p, it);
      && p < |s| && Ch(s, p) != '\0' && Ch(s, p) != '}' && Skip(s, p) == at.key && Ch(s, at.key) == '"'
      && ParseString(s, at.key, KEY_BUF) == Str(it.key, at.colon)
  {
    hide Skip, ParseString, AfterColon, ItemText, Quote, At, Blank, Ch;
    ItemPlaces(s, p, it);
    StringReads(s, p, it.w0, it.key, KEY_BUF);
  }

  lemma ValueReads(s: string, p: nat, it: Item)
    requires At(s, p, ItemText(it)) && GoodItem(it) && FitsBuffers(it)
    requires !IsWs(Ch(s, p + |ItemText(it)|))
    ensures var at := PlacesOf(p, it);
      && AfterColon(s, at.colon) == at.val
      && ParseString(s, at.val, VAL_BUF) == Str(it.val, at.tail)
      && Skip(s, at.tail) == at.end
  {
    hide Skip, ParseString, AfterColon, ItemText, Quote, At, Blank, Ch;
    ItemPlaces(s, p, it);
    var c := PlacesOf(p, it).colon;
    ColonReads(s, c, it.w1, it.w2, it.val);
    StringReads(s, c + |it.w1| + 1, it.w2, it.val, VAL_BUF);
    SkipBlank(s, PlacesOf(p, it).tail, it.w3);
  }

  lemma ItemRoundTrip(s: string, p: nat, it: Item, env: seq<Pair>)
    requires At(s, p, ItemText(it)) && GoodItem(it) && FitsBuffers(it) && |env| < MAX_ENV
    requires !IsWs(Ch(s, p + |ItemText(it)|))
    ensures var e := p + |ItemText(it)|;
      ReadEnv(s, p, env) == ReadEnv(s, if Ch(s, e) == ',' then e + 1 else e, env + [Pair(it.key, it.val)])
  {
    hide Skip, ParseString, AfterColon, ItemText, PlacesOf, At, GoodItem, FitsBuffers, Ch;
    ItemReads(s, p, it);
  }

  ghost predicate GoodItems(items: seq<Item>) {
    forall i | 0 <= i < |items| :: GoodItem(items[i]) && FitsBuffers(items[i])
  }

  /** Where the first item of an object ends and what follows it. */
  lemma ObjectPlaces(s: string, p: nat, items: seq<Item>)
    requires items != [] && At(s, p, ObjectText(items))
    ensures var e := p + |ItemText(items[0])|;
      && At(s, p, ItemText(items[0]))
      && (|items| == 1 ==> e == p + |ObjectText(items)|)
      && (|items| > 1 ==> Ch(s, e) == ',' && At(s, e + 1, ObjectText(items[1..]))
                          && e + 1 + |ObjectText(items[1..])| == p + |ObjectText(items)|)
  {
    hide ItemText, At;
    var it := ItemText(items[0]);
    if |items| == 1 {
      assert ObjectText(items) == it;
    } else {
      var rest := ObjectText(items[1..]);
      assert ObjectText(items) == it + ("," + rest);
      hide ObjectText;
      AtSplit(s, p, it, "," + rest);
      AtSplit(s, p + |it|, ",", rest);
      AtFirst(s, p + |it|, ",");
    }
  }

  /** Where the reader goes on after an object's pairs: past the comma, if one follows. */
  function AfterObject(s: string, e: nat): nat {
    if Ch(s, e) == ',' then e + 1 else e
  }

  lemma PairsCons(env: seq<Pair>, items: seq<Item>)
    requires items != []
    ensures env + [Pair(items[0].key, items[0].val)] + Pairs(items[1..]) == env + Pairs(items)
    ensures |items| == 1 ==> env + [Pair(items[0].key, items[0].val)] == env + Pairs(items)
  {
    hide Pairs;
    PairsUnfold(items);
    ConcatAssoc(env, [Pair(items[0].key, items[0].val)], Pairs(items[1..]));
  }

  lemma PairsUnfold(items: seq<Item>)
    requires items != []
    ensures Pairs(items) == [Pair(items[0].key, items[0].val)] + Pairs(items[1..])
    ensures |items| == 1 ==> Pairs(items) == [Pair(items[0].key, items[0].val)]
  {
    if |items| == 1 {
      assert Pairs(items[1..]) == [];
    }
  }

  /** Printed pairs are read back in order, whatever follows them. */
  lemma {:induction false} PairsRead(s: string, p: nat, items: seq<Item>, env: seq<Pair>)
    requires items != [] && GoodItems(items) && |env| + |items| <= MAX_ENV
    requires At(s, p, ObjectText(items)) && !IsWs(Ch(s, p + |ObjectText(items)|))
    ensures ReadEnv(s, p, env) == ReadEnv(s, AfterObject(s, p + |ObjectText(items)|), env + Pairs(items))
    decreases |items|
  {
    hide ItemText, GoodItem, FitsBuffers, At, ObjectText, ReadEnv, Ch, Pairs;
    var it, rest := items[0], items[1..];
    ObjectPlaces(s, p, items);
    ItemRoundTrip(s, p, it, env);
    PairsCons(env, items);
    if |items| > 1 {
      PairsRead(s, p + |ItemText(it)| + 1, rest, env + [Pair(it.key, it.val)]);
    }
  }

  lemma StopsAtBrace(s: string, p: nat, env: seq<Pair>)
    requires Ch(s, p) == '}'
    ensures ReadEnv(s, p, env) == Stopped(env, p)
  {
  }

  /** Any non-empty object of up to 32 pairs, with any white space, is read back in order, and the
      reader stops at its closing brace whatever follows. */
  lemma EnvRoundTrip(items: seq<Item>, rest: string)
    requires items != [] && GoodItems(items) && |items| <= MAX_ENV
    ensures ReadEnv(ObjectText(items) + "}" + rest, 0, []) == Stopped(Pairs(items), |ObjectText(items)|)
  {
    hide ReadEnv, ObjectText, GoodItem, FitsBuffers;
    var t := ObjectText(items);
    var s := t + "}" + rest;
    assert s[0..|t|] == t && s[|t|] == '}';
    PairsRead(s, 0, items, []);
    assert [] + Pairs(items) == Pairs(items);
    StopsAtBrace(s, |t|, Pairs(items));
  }

  lemma {:induction false} ObjectSplit(a: seq<Item>, b: seq<Item>)
    requires a != [] && b != []
    ensures ObjectText(a + b) == ObjectText(a) + "," + ObjectText(b)
  {
    hide ItemText;
    var ab := a + b;
    assert ab[0] == a[0] && ab[1..] == a[1..] + b;
    if |a| > 1 {
      ObjectSplit(a[1..], b);
    }
  }

  /** Of a larger object the first 32 pairs are read, and the reader stops after the comma that follows
      them. */
  lemma EnvCut(items: seq<Item>, rest: string)
    requires |items| > MAX_ENV && GoodItems(items)
    ensures ReadEnv(ObjectText(items) + rest, 0, []) ==
      Stopped(Pairs(items[..32]), |ObjectText(items[..32])| + 1)
  {
    hide ReadEnv, ObjectText, GoodItem, FitsBuffers, Pairs;
    var first, others := items[..32], items[32..];
    var t, u := ObjectText(first), ObjectText(others);
    assert items == first + others;
    ObjectSplit(first, others);
    var s := t + "," + u + rest;
    assert s[0..|t|] == t && s[|t|] == ',' && |s| > |t|;
    PairsRead(s, 0, first, []);
    assert [] + Pairs(first) == Pairs(first);
    PairsLength(first);
    StopsHere(s, |t| + 1, Pairs(first));
  }

  lemma NotAString(s: string, p: nat)
    requires !IsWs(Ch(s, p)) && Ch(s, p) != '"'
    ensures Skip(s, p) == p && ParseString(s, p, VAL_BUF).NoString?
  {
  }

  lemma ColonThere(s: string, p: nat)
    requires At(s, p, ":")
    ensures Ch(s, p) == ':'
  {
    AtFirst(s, p, ":");
  }

  /** A key, a colon and then something that is not a string end the reading, with the pairs so far. */
  lemma BreaksAtKey(s: string, p: nat, it: Item, env: seq<Pair>)
    requires At(s, p, it.w0 + Quote(it.key) + it.w1 + ":" + it.w2) && GoodItem(it) && FitsBuffers(it) && |env| < MAX_ENV
    requires var c := Ch(s, p + |it.w0| + |Quote(it.key)| + |it.w1| + 1 + |it.w2|); !IsWs(c) && c != '"'
    ensures ReadEnv(s, p, env) == Broken(env)
  {
    hide Quote, Ch, At, Skip, ParseString;
    var k := Quote(it.key);
    AtSplit(s, p, it.w0 + k + it.w1 + ":", it.w2);
    AtSplit(s, p, it.w0 + k + it.w1, ":");
    AtSplit(s, p, it.w0 + k, it.w1);
    AtSplit(s, p, it.w0, k);
    var q := p + |it.w0| + |k|;
    ColonThere(s, q + |it.w1|);
    StringReads(s, p, it.w0, it.key, KEY_BUF);
    SkipBlank(s, q, it.w1);
    SkipBlank(s, q + |it.w1| + 1, it.w2);
    NotAString(s, q + |it.w1| + 1 + |it.w2|);
  }

  /** So a value that is not a string, a number or a nested object say, breaks the reading off: the pairs
      before it are kept and everything from it on is lost. */
  lemma EnvBroken(items: seq<Item>, it: Item, rest: string)
    requires items != [] && GoodItems(items) && |items| < MAX_ENV && GoodItem(it) && FitsBuffers(it)
    requires rest == "" || (!IsWs(rest[0]) && rest[0] != '"')
    ensures ReadEnv(ObjectText(items) + "," + (it.w0 + Quote(it.key) + it.w1 + ":" + it.w2) + rest, 0, []) ==
      Broken(Pairs(items))
  {
    hide ReadEnv, ObjectText, GoodItem, FitsBuffers, Pairs, Quote;
    var t, k := ObjectText(items), it.w0 + Quote(it.key) + it.w1 + ":" + it.w2;
    var s := t + "," + k + rest;
    assert s[0..|t|] == t && s[|t|] == ',' && s[|t| + 1..|t| + 1 + |k|] == k;
    assert rest != "" ==> s[|t| + 1 + |k|] == rest[0];
    PairsRead(s, 0, items, []);
    assert [] + Pairs(items) == Pairs(items);
    PairsLength(items);
    BreaksAtKey(s, |t| + 1, it, Pairs(items));
  }

  /** White space up to the end of the text carries the pointer past the terminator. */
  lemma TailOverruns(s: string, p: nat, env: seq<Pair>)
    requires p < |s| && Blank(s[p..]) && |env| < MAX_ENV
    ensures ReadEnv(s, p, env) == Overrun(env)
  {
    var w := s[p..];
    assert w[0] == s[p];
    SkipBlank(s, p, w);
    hide Skip, ParseString, AfterColon, AfterComma;
  }

  /** A text that breaks off after a comma: the reader overruns it exactly when white space follows the
      comma and there is room for another pair, and stops at its end otherwise. */
  lemma BrokenOff(items: seq<Item>, w: string)
    requires items != [] && GoodItems(items) && |items| <= MAX_ENV && Blank(w)
    ensures ReadEnv(ObjectText(items) + "," + w, 0, []) ==
      if w != "" && |items| < MAX_ENV then Overrun(Pairs(items)) else Stopped(Pairs(items), |ObjectText(items)| + 1)
  {
    hide ObjectText, GoodItem, FitsBuffers;
    var t := ObjectText(items);
    var s := t + "," + w;
    assert s[0..|t|] == t && s[|t|] == ',' && s[|t| + 1..] == w;
    PairsRead(s, 0, items, []);
    assert [] + Pairs(items) == Pairs(items);
    PairsLength(items);
    if w != "" && |items| < MAX_ENV {
      hide ReadEnv;
      TailOverruns(s, |t| + 1, Pairs(items));
    } else {
      assert w == "" ==> |t| + 1 == |s|;
      assert w != "" ==> !(|t| + 1 > |s|);
      StopsHere(s, |t| + 1, Pairs(items));
    }
  }

  lemma StopsHere(s: string, p: nat, env: seq<Pair>)
    requires p <= |s| && (p == |s| || |env| >= MAX_ENV)
    ensures ReadEnv(s, p, env) == Stopped(env, p)
  {
  }

  lemma {:induction false} PairsLength(items: seq<Item>)
    ensures |Pairs(items)| == |items|
  {
    if items != [] {
      PairsLength(items[1..]);
    }
  }

  /** The positions at which the loop body is entered. */
  ghost function Heads(s: string, p: nat, env: seq<Pair>): set<nat>
    decreases |s| + 1 - p
  {
    if p > |s| || Ch(s, p) == '\0' || Ch(s, p) == '}' || |env| >= MAX_ENV then {}
    else
      var q := Skip(s, p);
      {p} +
      if Ch(s, q) != '"' then Heads(s, q + 1, env)
      else
        var k := ParseString(s, q, KEY_BUF);
        if k.NoString? then {}
        else
          var v := ParseString(s, AfterColon(s, k.next), VAL_BUF);
          if v.NoString? then {} else Heads(s, AfterComma(s, v.next), env + [Pair(k.text, v.text)])
  }

  lemma SkipStops(s: string, p: nat)
    requires p <= |s| && '\0' !in s
    ensures Skip(s, p) == |s| <==> Blank(s[p..])
    decreases |s| - p
  {
    if p < |s| && IsWs(s[p]) {
      SkipStops(s, p + 1);
      assert s[p..] == [s[p]] + s[p + 1..];
    } else if p < |s| {
      assert s[p..][0] == s[p];
    }
  }

  /** The pointer goes past the terminator exactly when some round of the loop starts in white space
      that reaches to the end of the text. */
  lemma {:induction false} OverrunIff(s: string, p: nat, env: seq<Pair>)
    requires p <= |s| && '\0' !in s
    ensures ReadEnv(s, p, env).Overrun? <==> exists h | h in Heads(s, p, env) :: h < |s| && Blank(s[h..])
    decreases |s| - p
  {
    if !(Ch(s, p) == '\0' || Ch(s, p) == '}' || |env| >= MAX_ENV) {
      hide ParseString, AfterColon, AfterComma, Blank;
      var q := Skip(s, p);
      SkipStops(s, p);
      if q < |s| {
        if Ch(s, q) != '"' {
          OverrunIff(s, q + 1, env);
        } else {
          var k := ParseString(s, q, KEY_BUF);
          if k.Str? {
            var v := ParseString(s, AfterColon(s, k.next), VAL_BUF);
            if v.Str? {
              OverrunIff(s, AfterComma(s, v.next), env + [Pair(k.text, v.text)]);
            }
          }
        }
      }
    }
  }

  /** So a text whose last character is not white space is never overrun. */
  lemma NoTrailingBlank(s: string, p: nat, env: seq<Pair>)
    requires p <= |s| && '\0' !in s && (s == "" || !IsWs(s[|s| - 1]))
    ensures !ReadEnv(s, p, env).Overrun?
  {
    OverrunIff(s, p, env);
    hide ReadEnv, Heads;
    forall h: nat | h < |s| ensures !Blank(s[h..]) {
      assert s[h..][|s| - 1 - h] == s[|s| - 1];
    }
  }

  /** The reader never stops before where it started. */
  lemma {:induction false} StopsLater(s: string, p: nat, env: seq<Pair>)
    ensures var r := ReadEnv(s, p, env); r.Stopped? ==> r.pos >= p
    decreases |s| + 1 - p
  {
    if p <= |s| && !(Ch(s, p) == '\0' || Ch(s, p) == '}' || |env| >= MAX_ENV) {
      hide ParseString, AfterColon, AfterComma;
      var q := Skip(s, p);
      if Ch(s, q) != '"' {
        StopsLater(s, q + 1, env);
      } else {
        var k := ParseString(s, q, KEY_BUF);
        if k.Str? {
          var v := ParseString(s, AfterColon(s, k.next), VAL_BUF);
          if v.Str? {
            StopsLater(s, AfterComma(s, v.next), env + [Pair(k.text, v.text)]);
          }
        }
      }
    }
  }

  /** Anything but a quote after white space is skipped, a closing brace included. */
  lemma StepsOver(s: string, p: nat, env: seq<Pair>)
    requires IsWs(Ch(s, p)) && Ch(s, Skip(s, p)) != '"' && |env| < MAX_ENV
    ensures ReadEnv(s, p, env) == ReadEnv(s, Skip(s, p) + 1, env)
  {
    hide Skip;
  }

  /** The empty object is read as such, with the reader at its closing brace, exactly when nothing
      separates its braces: after white space the reader steps over the brace and goes on in
      whatever follows. */
  lemma EmptyObject(w: string, rest: string)
    requires Blank(w)
    ensures ReadEnv(w + "}" + rest, 0, []) == Stopped([], |w|) <==> w == ""
    ensures w != "" ==> ReadEnv(w + "}" + rest, 0, []) == ReadEnv(w + "}" + rest, |w| + 1, [])
  {
    hide ReadEnv, Skip;
    var s := w + "}" + rest;
    assert s[0..|w|] == w && s[|w|] == '}';
    SkipBlank(s, 0, w);
    assert w != "" ==> s[0] == w[0];
    if w == "" {
      StopsAtBrace(s, 0, []);
    } else {
      StepsOver(s, 0, []);
      StopsLater(s, |w| + 1, []);
    }
  }
}
