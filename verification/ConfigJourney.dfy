/** An environment variable's way from the JSON configuration into the guest: the reader, the printer of
    the .vmconfig file and the guest's parser, one after the other. */
module ConfigJourney {
  import opened Common
  import E = EnvReader
  import V = VmConfigText

  lemma {:induction false} TextPlain(lines: seq<string>)
    requires forall i | 0 <= i < |lines| :: V.Plain(lines[i])
    ensures '\0' !in V.Text(lines)
  {
    if lines != [] {
      TextPlain(lines[..|lines| - 1]);
    }
  }

  /** c with the pairs of a JSON object for its environment. */
  function With(c: V.Config, items: seq<E.Item>): V.Config {
    c.(env := E.Pairs(items))
  }

  /** Every pair of the object, whatever white space it is written with and whatever follows it, is in
      the guest's environment under both names, and hostname, address and gateway arrive exactly when
      they are not wrapped in quotes; NET_MAC spells the hardware address unless a pair of that name
      takes its place. */
  method Deliver(items: seq<E.Item>, rest: string, c: V.Config) returns (g: V.Guest)
    requires items != [] && E.GoodItems(items) && |items| <= E.MAX_ENV
    requires V.Printable(With(c, items)) && |V.Text(V.Lines(With(c, items)))| <= V.GUEST_BUF
    ensures V.Holds(g, E.Pairs(items))
    ensures (g.hostname == c.hostname <==> !V.Quoted(c.hostname)) && (g.ip == c.ip <==> !V.Quoted(c.ip))
    ensures g.gateway == c.gateway <==> !V.Quoted(c.gateway)
    ensures c.hasNet && (forall i | 0 <= i < |E.Pairs(items)| :: E.Pairs(items)[i].key != "NET_MAC") ==>
      "NET_MAC" in g.env && V.Spells(g.env["NET_MAC"], c.mac)
  {
    hide E.ReadEnv, E.ObjectText, V.Printable, V.Text, V.Lines, V.Tokens, V.Apply, V.Holds, V.Spells;
    E.EnvRoundTrip(items, rest);
    var r := E.ReadEnvLoop(E.ObjectText(items) + "}" + rest, 0);
    var text := V.Print(c.(env := r.env));
    V.LinesPlain(With(c, items));
    TextPlain(V.Lines(With(c, items)));
    var buf := new char[V.GUEST_BUF + 1](i => if 0 <= i < |text| then text[i] else '\0');
    assert buf[..|text|] == text;
    g := V.ParseBuffer(buf, |text|, V.FRESH);
    V.ConfigRoundTrip(With(c, items));
  }
}
