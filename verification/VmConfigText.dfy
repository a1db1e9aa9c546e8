/** The .vmconfig file: the host's printer and the guest's line parser. */
module VmConfigText {
  import opened Bytes
  import opened Common

  /** One line of text carries no line break and no terminator. */
  predicate Plain(s: string) {
    '\n' !in s && '\r' !in s && '\0' !in s
  }

  datatype Config = Config(hostname: string, ip: string, gateway: string, hasNet: bool, mac: seq<Byte>, env: seq<Pair>)

  const GUEST_BUF: nat := 2047

  // ---- Host side ----------------------------------------------------------

  const HEX: string := "0123456789abcdef"

  function Hex2(b: Byte): string {
    [HEX[b / 16], HEX[b % 16]]
  }

  function MacText(mac: seq<Byte>): string {
    if mac == [] then ""
    else if |mac| == 1 then Hex2(mac[0])
    else Hex2(mac[0]) + ":" + MacText(mac[1..])
  }

  /** A line that is printed only on a condition. */
  function When(cond: bool, key: string, val: string): seq<string> {
    if cond then [key + "=" + val] else []
  }

  function HeadLines(c: Config): seq<string> {
    When(c.hostname != "", "HOSTNAME", c.hostname) + When(c.ip != "", "NET_IP", c.ip)
    + When(c.gateway != "", "NET_GW", c.gateway) + When(c.hasNet, "NET_MAC", MacText(c.mac))
  }

  function ExportLine(p: Pair): string {
    "export " + p.key + "=" + "\"" + p.val + "\""
  }

  function EnvLine(p: Pair): string {
    "ENV_" + p.key + "=" + "\"" + p.val + "\""
  }

  function EnvLines(env: seq<Pair>): seq<string> {
    if env == [] then [] else EnvLines(env[..|env| - 1]) + [ExportLine(env[|env| - 1]), EnvLine(env[|env| - 1])]
  }

  function Lines(c: Config): seq<string> {
    HeadLines(c) + EnvLines(c.env)
  }

  /** Each line with its newline. */
  function Text(lines: seq<string>): string {
    if lines == [] then "" else Text(lines[..|lines| - 1]) + lines[|lines| - 1] + "\n"
  }

  lemma TextSnoc(lines: seq<string>, line: string)
    ensures Text(lines + [line]) == Text(lines) + line + "\n"
  {
    assert (lines + [line])[..|lines|] == lines;
  }

  /** if (cond) fprintf(f, "key=%s\n", val) */
  method PrintWhen(out: string, ghost lines: seq<string>, cond: bool, key: string, val: string) returns (out': string)
    requires out == Text(lines)
    ensures out' == Text(lines + When(cond, key, val))
  {
    out' := out;
    if cond {
      TextSnoc(lines, key + "=" + val);
      out' := out + (key + "=" + val) + "\n";
    } else {
      assert lines + [] == lines;
    }
  }

  /** write_config_to_share's fprintf calls, in order. */
  method Print(c: Config) returns (out: string)
    ensures out == Text(Lines(c))
  {
    hide Text, When, ExportLine, EnvLine;
    out := PrintWhen(Text([]), [], c.hostname != "", "HOSTNAME", c.hostname);
    ghost var lines := [] + When(c.hostname != "", "HOSTNAME", c.hostname);
    out := PrintWhen(out, lines, c.ip != "", "NET_IP", c.ip);
    lines := lines + When(c.ip != "", "NET_IP", c.ip);
    out := PrintWhen(out, lines, c.gateway != "", "NET_GW", c.gateway);
    lines := lines + When(c.gateway != "", "NET_GW", c.gateway);
    out := PrintWhen(out, lines, c.hasNet, "NET_MAC", MacText(c.mac));
    lines := lines + When(c.hasNet, "NET_MAC", MacText(c.mac));
    assert lines == HeadLines(c);
    out := PrintEnv(out, HeadLines(c), c.env);
  }

  method PrintEnv(out: string, ghost head: seq<string>, env: seq<Pair>) returns (out': string)
    requires out == Text(head)
    ensures out' == Text(head + EnvLines(env))
  {
    hide Text, ExportLine, EnvLine;
    out' := out;
    assert head + [] == head;
    for i := 0 to |env|
      invariant out' == Text(head + EnvLines(env[..i]))
    {
      var p := env[i];
      ghost var lines := head + EnvLines(env[..i]);
      assert env[..i + 1][..i] == env[..i];
      assert head + EnvLines(env[..i + 1]) == lines + [ExportLine(p)] + [EnvLine(p)];
      TextSnoc(lines, ExportLine(p));
      TextSnoc(lines + [ExportLine(p)], EnvLine(p));
      out' := out' + ExportLine(p) + "\n";
      out' := out' + EnvLine(p) + "\n";
    }
    assert env[..|env|] == env;
  }

  // ---- Guest side ---------------------------------------------------------

  datatype Guest = Guest(hostname: string, ip: string, gateway: string, env: map<string, string>)

  function Clip(s: string, n: nat): string {
    if |s| <= n then s else s[..n]
  }

  function SkipBlanks(s: string): string {
    if s != "" && (s[0] == ' ' || s[0] == '\t') then SkipBlanks(s[1..]) else s
  }

  /** strchr(s, '='), or the length if there is none. */
  function FindEq(s: string): (i: nat)
    ensures i <= |s|
    ensures i < |s| ==> s[i] == '='
    ensures forall j | 0 <= j < i :: s[j] != '='
  {
    if s == "" then 0 else if s[0] == '=' then 0 else 1 + FindEq(s[1..])
  }

  predicate Quoted(v: string) {
    |v| >= 2 && (v[0] == '"' || v[0] == '\'') && v[|v| - 1] == v[0]
  }

  function Unquote(v: string): string {
    if Quoted(v) then v[1..|v| - 1] else v
  }

  function SetEnv(g: Guest, key: string, val: string): Guest {
    if key == "" then g else g.(env := g.env[key := val])
  }

  function Assign(g: Guest, key: string, val: string): Guest {
    if key == "HOSTNAME" then g.(hostname := Clip(val, 255))
    else if key == "NET_IP" then g.(ip := Clip(val, 63))
    else if key == "NET_GW" then g.(gateway := Clip(val, 63))
    else
      var g' := SetEnv(g, key, val);
      if "ENV_" <= key then SetEnv(g', key[4..], val) else g'
  }

  function ApplyLine(g: Guest, line: string): Guest {
    var p := SkipBlanks(line);
    if p == "" || p[0] == '#' then g
    else
      var q := if "export " <= p then p[7..] else p;
      var eq := FindEq(q);
      if eq == |q| then g else Assign(g, q[..eq], Unquote(q[eq + 1..]))
  }

  function Apply(g: Guest, lines: seq<string>): Guest {
    if lines == [] then g else ApplyLine(Apply(g, lines[..|lines| - 1]), lines[|lines| - 1])
  }

  predicate Break(c: char) {
    c == '\r' || c == '\n'
  }

  /** strtok(buf, "\r\n") until it is exhausted: the maximal runs without line breaks. */
  function Tokens(s: string): seq<string> {
    if s == "" then []
    else
      var prev, c := s[..|s| - 1], s[|s| - 1];
      var ts := Tokens(prev);
      if Break(c) then ts
      else if prev != "" && !Break(prev[|prev| - 1]) && ts != [] then ts[..|ts| - 1] + [ts[|ts| - 1] + [c]]
      else ts + [[c]]
  }

  /** The guest reads at most 2047 bytes and applies the lines one by one. */
  function ReadConfig(g: Guest, file: string): Guest {
    Apply(g, Tokens(Clip(file, GUEST_BUF)))
  }

  // ---- Splitting undoes joining -------------------------------------------

  lemma TokensSnoc(s: string, c: char)
    requires !Break(c)
    ensures s == "" || Break(s[|s| - 1]) ==> Tokens(s + [c]) == Tokens(s) + [[c]]
    ensures s != "" && !Break(s[|s| - 1]) && Tokens(s) != [] ==>
      var ts := Tokens(s); Tokens(s + [c]) == ts[..|ts| - 1] + [ts[|ts| - 1] + [c]]
  {
    assert (s + [c])[..|s|] == s;
  }

  lemma {:induction false} TokensRun(s: string, t: string)
    requires t != "" && Plain(t) && (s == "" || Break(s[|s| - 1]))
    ensures Tokens(s + t) == Tokens(s) + [t]
  {
    hide Tokens;
    var prev, c := t[..|t| - 1], t[|t| - 1];
    assert t == prev + [c];
    if prev == "" {
      TokensSnoc(s, c);
    } else {
      TokensRun(s, prev);
      var u := s + prev;
      assert u[|u| - 1] == prev[|prev| - 1] && u + [c] == s + t;
      TokensSnoc(u, c);
      assert (Tokens(s) + [prev])[..|Tokens(s)|] == Tokens(s);
    }
  }

  lemma {:induction false} SplitJoin(lines: seq<string>)
    requires forall i | 0 <= i < |lines| :: lines[i] != "" && Plain(lines[i])
    ensures Tokens(Text(lines)) == lines
    ensures lines != [] ==> Text(lines) != "" && Break(Text(lines)[|Text(lines)| - 1])
  {
    if lines != [] {
      var prev, last := lines[..|lines| - 1], lines[|lines| - 1];
      SplitJoin(prev);
      TokensRun(Text(prev), last);
      var u := Text(prev) + last;
      assert Text(lines) == u + "\n";
      assert (u + "\n")[..|u|] == u;
      assert prev + [last] == lines;
      assert Tokens(u + "\n") == Tokens(u);
      hide Tokens, Text;
    }
  }

  // ---- What one line does -------------------------------------------------

  lemma FindEqAt(k: string, rest: string)
    requires '=' !in k
    ensures FindEq(k + "=" + rest) == |k|
  {
    var s := k + "=" + rest;
    var i := FindEq(s);
    assert s[|k|] == '=';
    assert forall j | 0 <= j < |k| :: s[j] == k[j];
  }

  lemma AssignmentLine(g: Guest, key: string, rest: string)
    requires '=' !in key && key != "" && key[0] != ' ' && key[0] != '\t' && key[0] != '#' &&
      !("export " <= key + "=" + rest)
    ensures ApplyLine(g, key + "=" + rest) == Assign(g, key, Unquote(rest))
  {
    var s := key + "=" + rest;
    FindEqAt(key, rest);
    assert SkipBlanks(s) == s;
    assert s[..|key|] == key && s[|key| + 1..] == rest;
  }

  lemma UnquoteQuoted(v: string)
    ensures Unquote("\"" + v + "\"") == v
  {
    var q := "\"" + v + "\"";
    assert q[1..|q| - 1] == v;
  }

  predicate GoodKey(k: string) {
    k != "" && '=' !in k && !("ENV_" <= k) && k != "HOSTNAME" && k != "NET_IP" && k != "NET_GW"
  }

  lemma ExportStarts(s: string)
    ensures "export " <= s ==> s[0] == 'e'
  {
    if "export " <= s {
      assert s[0] == "export "[0];
    }
  }

  lemma ExportAssigns(g: Guest, key: string, rest: string)
    requires '=' !in key
    ensures ApplyLine(g, "export " + (key + "=" + rest)) == Assign(g, key, Unquote(rest))
  {
    var q := key + "=" + rest;
    var s := "export " + q;
    assert SkipBlanks(s) == s && "export " <= s && s[7..] == q;
    FindEqAt(key, rest);
    assert q[..|key|] == key && q[|key| + 1..] == rest;
    hide SkipBlanks, FindEq, Unquote, Assign;
  }

  lemma ExportApplies(g: Guest, p: Pair)
    requires GoodKey(p.key)
    ensures ApplyLine(g, ExportLine(p)) == g.(env := g.env[p.key := p.val])
  {
    hide ApplyLine, Unquote;
    var rest := "\"" + p.val + "\"";
    assert ExportLine(p) == "export " + (p.key + "=" + rest);
    ExportAssigns(g, p.key, rest);
    UnquoteQuoted(p.val);
  }

  lemma EnvApplies(g: Guest, p: Pair)
    requires GoodKey(p.key)
    ensures ApplyLine(g, EnvLine(p)) == g.(env := g.env["ENV_" + p.key := p.val][p.key := p.val])
  {
    var key, rest := "ENV_" + p.key, "\"" + p.val + "\"";
    var s := EnvLine(p);
    assert s == key + "=" + rest;
    assert s[0] == 'E' && key[0] == 'E';
    ExportStarts(s);
    AssignmentLine(g, key, rest);
    UnquoteQuoted(p.val);
    assert key[4..] == p.key && key[0] == 'E' && key[3] == '_';
    assert key != "HOSTNAME" && key != "NET_IP" && key != "NET_GW";
  }

  // ---- Lines the host does not print --------------------------------------

  predicate Blanks(b: string) {
    forall i | 0 <= i < |b| :: b[i] == ' ' || b[i] == '\t'
  }

  lemma {:induction false} BlanksSkipped(b: string, s: string)
    requires Blanks(b)
    ensures SkipBlanks(b + s) == SkipBlanks(s)
  {
    if b == "" {
      assert b + s == s;
    } else {
      BlanksSkipped(b[1..], s);
      assert (b + s)[1..] == b[1..] + s;
    }
  }

  lemma NoEq(s: string)
    requires '=' !in s
    ensures FindEq(s) == |s|
  {
  }

  /** Empty lines, comments and lines without an equals sign are ignored, indented or not. */
  lemma LineIgnored(g: Guest, b: string, rest: string)
    requires Blanks(b) && (rest == "" || rest[0] == '#' || ('=' !in rest && rest[0] != ' ' && rest[0] != '\t'))
    ensures ApplyLine(g, b + rest) == g
  {
    BlanksSkipped(b, rest);
    assert SkipBlanks(rest) == rest;
    if rest != "" && rest[0] != '#' {
      var q := if "export " <= rest then rest[7..] else rest;
      NoEq(q);
    }
  }

  lemma Indented(g: Guest, b: string, line: string)
    requires Blanks(b)
    ensures ApplyLine(g, b + line) == ApplyLine(g, line)
  {
    BlanksSkipped(b, line);
    hide SkipBlanks, FindEq, Unquote, Assign;
  }

  /** Indentation and the word export make no difference to an assignment. */
  lemma LineAssigns(g: Guest, b: string, key: string, val: string)
    requires Blanks(b) && '=' !in key && key != "" && key[0] != ' ' && key[0] != '\t' && key[0] != '#'
    requires !("export " <= key + "=" + val)
    ensures ApplyLine(g, b + (key + "=" + val)) == Assign(g, key, Unquote(val))
    ensures ApplyLine(g, b + ("export " + (key + "=" + val))) == Assign(g, key, Unquote(val))
  {
    hide ApplyLine, Unquote, Assign;
    Indented(g, b, key + "=" + val);
    Indented(g, b, "export " + (key + "=" + val));
    AssignmentLine(g, key, val);
    ExportAssigns(g, key, val);
  }

  /** Quotes of either kind are taken off, a pair of different ones is not. */
  lemma QuotesOff(v: string)
    ensures Unquote(['\''] + v + ['\'']) == v && Unquote(['"'] + v + ['"']) == v
    ensures Unquote(['\''] + v + ['"']) == ['\''] + v + ['"'] && Unquote(['"'] + v + ['\'']) == ['"'] + v + ['\'']
  {
    assert (['\''] + v + ['\''])[1..|v| + 1] == v;
    assert (['"'] + v + ['"'])[1..|v| + 1] == v;
  }

  /** Names longer than the guest's buffers are cut to them: 255 characters for the hostname, 63 for the
      address and the gateway. */
  lemma NamesCut(g: Guest, val: string)
    ensures var h := Assign(g, "HOSTNAME", val).hostname; h <= val && |h| == if |val| < 255 then |val| else 255
    ensures var a := Assign(g, "NET_IP", val).ip; a <= val && |a| == if |val| < 63 then |val| else 63
    ensures var w := Assign(g, "NET_GW", val).gateway; w <= val && |w| == if |val| < 63 then |val| else 63
  {
  }

  /** What follows the first 2047 bytes of the file does not matter. */
  lemma FileCut(g: Guest, file: string, more: string)
    requires |file| >= 2047
    ensures ReadConfig(g, file) == ReadConfig(g, file[..2047] + more)
  {
    var cut := file[..2047] + more;
    assert cut[..2047] == file[..2047];
    assert |cut| == 2047 ==> cut[..2047] == cut;
    assert |file| == 2047 ==> file[..2047] == file;
  }

  // ---- Whole files --------------------------------------------------------

  predicate Distinct(env: seq<Pair>) {
    forall i, j | 0 <= i < j < |env| :: env[i].key != env[j].key
  }

  ghost predicate Holds(g: Guest, env: seq<Pair>) {
    forall i | 0 <= i < |env| ::
      && env[i].key in g.env && g.env[env[i].key] == env[i].val
      && "ENV_" + env[i].key in g.env && g.env["ENV_" + env[i].key] == env[i].val
  }

  lemma {:induction false} ApplyAppend(g: Guest, a: seq<string>, b: seq<string>)
    ensures Apply(g, a + b) == Apply(Apply(g, a), b)
  {
    if b == [] {
      assert a + b == a;
    } else {
      assert (a + b)[..|a + b| - 1] == a + b[..|b| - 1];
      ApplyAppend(g, a, b[..|b| - 1]);
    }
  }

  /** Keys under the two spellings never meet. */
  lemma KeysApart(a: string, b: string)
    requires GoodKey(a) && GoodKey(b)
    ensures a != "ENV_" + b
    ensures "ENV_" + a == "ENV_" + b <==> a == b
  {
    assert "ENV_" <= "ENV_" + b;
    assert ("ENV_" + a)[4..] == a && ("ENV_" + b)[4..] == b;
  }

  lemma PairAdded(g: Guest, env: seq<Pair>)
    requires env != [] && Distinct(env) && forall i | 0 <= i < |env| :: GoodKey(env[i].key)
    requires Holds(g, env[..|env| - 1])
    ensures var p := env[|env| - 1];
      Holds(g.(env := g.env[p.key := p.val]["ENV_" + p.key := p.val][p.key := p.val]), env)
  {
    var p := env[|env| - 1];
    var g' := g.(env := g.env[p.key := p.val]["ENV_" + p.key := p.val][p.key := p.val]);
    KeysApart(p.key, p.key);
    forall i | 0 <= i < |env| - 1
      ensures env[i].key in g'.env && g'.env[env[i].key] == env[i].val
      ensures "ENV_" + env[i].key in g'.env && g'.env["ENV_" + env[i].key] == env[i].val
    {
      assert env[i].key != p.key;
      KeysApart(env[i].key, p.key);
      KeysApart(p.key, env[i].key);
      assert env[..|env| - 1][i] == env[i];
    }
  }

  lemma ApplyTwo(g: Guest, a: string, b: string)
    ensures Apply(g, [a, b]) == ApplyLine(ApplyLine(g, a), b)
  {
    assert [a, b][..1] == [a] && [a][..0] == [];
    assert Apply(g, [a]) == ApplyLine(g, a);
  }

  lemma {:induction false} EnvRoundTrip(g: Guest, env: seq<Pair>)
    requires Distinct(env) && forall i | 0 <= i < |env| :: GoodKey(env[i].key)
    ensures var g' := Apply(g, EnvLines(env));
      Holds(g', env) && g' == g.(env := g'.env)
  {
    hide ApplyLine, ExportLine, EnvLine, Holds, GoodKey;
    if env != [] {
      var prev, p := env[..|env| - 1], env[|env| - 1];
      EnvRoundTrip(g, prev);
      var g1 := Apply(g, EnvLines(prev));
      ApplyAppend(g, EnvLines(prev), [ExportLine(p), EnvLine(p)]);
      ApplyTwo(g1, ExportLine(p), EnvLine(p));
      ExportApplies(g1, p);
      EnvApplies(ApplyLine(g1, ExportLine(p)), p);
      PairAdded(g1, env);
    } else {
      assert Holds(g, env) by {
        NothingToHold(g);
      }
    }
  }

  lemma NothingToHold(g: Guest)
    ensures Holds(g, [])
  {
  }

  /** What the file can carry: text fields without line breaks, names within their buffers, and
      distinct usable keys. */
  ghost predicate Printable(c: Config) {
    && Plain(c.hostname) && Plain(c.ip) && Plain(c.gateway)
    && |c.hostname| <= 63 && |c.ip| <= 31 && |c.gateway| <= 31 && |c.mac| == 6
    && Distinct(c.env)
    && (forall i | 0 <= i < |c.env| :: GoodKey(c.env[i].key) && Plain(c.env[i].key) && Plain(c.env[i].val))
  }

  const FRESH: Guest := Guest("", "", "", map[])

  /** A name line sets its field. */
  lemma NameLine(g: Guest, key: string, val: string)
    requires key == "HOSTNAME" || key == "NET_IP" || key == "NET_GW" || key == "NET_MAC"
    ensures ApplyLine(g, key + "=" + val) == Assign(g, key, Unquote(val))
  {
    var s := key + "=" + val;
    assert s[0] == key[0];
    ExportStarts(s);
    AssignmentLine(g, key, val);
  }

  /** A conditional name line: the guest's field ends up as printed, or stays as it was. */
  lemma WhenName(g: Guest, key: string, val: string)
    requires key == "HOSTNAME" || key == "NET_IP" || key == "NET_GW"
    requires |val| <= 63
    ensures Apply(g, When(val != "", key, val)) ==
      if val == "" then g
      else if key == "HOSTNAME" then g.(hostname := Unquote(val))
      else if key == "NET_IP" then g.(ip := Unquote(val))
      else g.(gateway := Unquote(val))
  {
    if val != "" {
      NameLine(g, key, val);
      assert [key + "=" + val][..0] == [];
    }
  }

  lemma WhenMac(g: Guest, cond: bool, val: string)
    ensures Apply(g, When(cond, "NET_MAC", val)) ==
      if cond then g.(env := g.env["NET_MAC" := Unquote(val)]) else g
  {
    if cond {
      NameLine(g, "NET_MAC", val);
      assert ["NET_MAC" + "=" + val][..0] == [];
    }
  }

  /** c is the lower-case hexadecimal digit for v. */
  predicate IsDigit(c: char, v: nat) {
    c as int == if v < 10 then '0' as int + v else 'a' as int + v - 10
  }

  /** The two hexadecimal digits of b, high one first. */
  ghost predicate SpellsByte(text: string, at: nat, b: Byte) {
    at + 2 <= |text| && IsDigit(text[at], b / 16) && IsDigit(text[at + 1], b % 16)
  }

  /** Two digits for each byte, with colons in between. */
  ghost predicate Spells(text: string, mac: seq<Byte>) {
    && |text| + 1 == 3 * |mac|
    && (forall i | 0 <= i < |mac| :: SpellsByte(text, 3 * i, mac[i]))
    && (forall i | 0 <= i < |mac| - 1 :: text[3 * i + 2] == ':')
  }

  lemma HexDigits(b: Byte)
    ensures |Hex2(b)| == 2 && SpellsByte(Hex2(b), 0, b)
  {
  }

  lemma SpellsCons(b: Byte, hex: string, mac: seq<Byte>, rest: string)
    requires |hex| == 2 && SpellsByte(hex, 0, b) && mac != [] && Spells(rest, mac)
    ensures Spells(hex + ":" + rest, [b] + mac)
  {
    hide IsDigit;
    var text, all := hex + ":" + rest, [b] + mac;
    forall i | 0 <= i < |all| ensures SpellsByte(text, 3 * i, all[i]) {
      if i > 0 {
        assert SpellsByte(rest, 3 * (i - 1), mac[i - 1]);
        assert text[3 * i] == rest[3 * (i - 1)] && text[3 * i + 1] == rest[3 * (i - 1) + 1];
      }
    }
    forall i | 0 <= i < |all| - 1 ensures text[3 * i + 2] == ':' {
      if i > 0 {
        assert text[3 * i + 2] == rest[3 * (i - 1) + 2];
      }
    }
  }

  lemma {:induction false} MacSpelled(mac: seq<Byte>)
    requires mac != []
    ensures Spells(MacText(mac), mac)
  {
    hide Hex2, SpellsByte;
    HexDigits(mac[0]);
    if |mac| > 1 {
      MacSpelled(mac[1..]);
      hide Spells;
      SpellsCons(mac[0], Hex2(mac[0]), mac[1..], MacText(mac[1..]));
      assert [mac[0]] + mac[1..] == mac;
    }
  }

  /** Such a text does not look quoted. */
  lemma SpellsUnquoted(text: string, mac: seq<Byte>)
    requires mac != [] && Spells(text, mac)
    ensures Unquote(text) == text
  {
    assert SpellsByte(text, 3 * 0, mac[0]);
  }

  lemma HeadRoundTrip(c: Config)
    requires Printable(c)
    ensures var g := Apply(FRESH, HeadLines(c));
      && g.hostname == Unquote(c.hostname) && g.ip == Unquote(c.ip) && g.gateway == Unquote(c.gateway)
      && (c.hasNet ==> "NET_MAC" in g.env && Spells(g.env["NET_MAC"], c.mac))
  {
    MacSpelled(c.mac);
    SpellsUnquoted(MacText(c.mac), c.mac);
    hide ApplyLine, When, Spells, MacText, Unquote;
    var a, b := When(c.hostname != "", "HOSTNAME", c.hostname), When(c.ip != "", "NET_IP", c.ip);
    var d, e := When(c.gateway != "", "NET_GW", c.gateway), When(c.hasNet, "NET_MAC", MacText(c.mac));
    ApplyAppend(FRESH, a + b + d, e);
    ApplyAppend(FRESH, a + b, d);
    ApplyAppend(FRESH, a, b);
    WhenName(FRESH, "HOSTNAME", c.hostname);
    WhenName(Apply(FRESH, a), "NET_IP", c.ip);
    WhenName(Apply(FRESH, a + b), "NET_GW", c.gateway);
    WhenMac(Apply(FRESH, a + b + d), c.hasNet, MacText(c.mac));
  }

  lemma {:induction false} MacPlain(mac: seq<Byte>)
    ensures Plain(MacText(mac))
  {
    if |mac| > 1 {
      MacPlain(mac[1..]);
    }
  }

  lemma {:induction false} EnvLinesPlain(env: seq<Pair>)
    requires forall i | 0 <= i < |env| :: Plain(env[i].key) && Plain(env[i].val)
    ensures forall i | 0 <= i < |EnvLines(env)| :: EnvLines(env)[i] != "" && Plain(EnvLines(env)[i])
  {
    if env != [] {
      var p := env[|env| - 1];
      EnvLinesPlain(env[..|env| - 1]);
      assert Plain(ExportLine(p)) && Plain(EnvLine(p));
      hide ExportLine, EnvLine, Plain;
    }
  }

  lemma LinesPlain(c: Config)
    requires Printable(c)
    ensures forall i | 0 <= i < |Lines(c)| :: Lines(c)[i] != "" && Plain(Lines(c)[i])
  {
    MacPlain(c.mac);
    EnvLinesPlain(c.env);
    assert Plain("HOSTNAME=" + c.hostname) && Plain("NET_IP=" + c.ip) && Plain("NET_GW=" + c.gateway);
    assert Plain("NET_MAC=" + MacText(c.mac));
    hide Plain, EnvLines, MacText;
  }

  /** A key that no pair of env sets, under either name. */
  ghost predicate Untouched(env: seq<Pair>, k: string) {
    forall i | 0 <= i < |env| :: env[i].key != k && "ENV_" + env[i].key != k
  }

  lemma {:induction false} EnvKeeps(g: Guest, env: seq<Pair>, k: string)
    requires (forall i | 0 <= i < |env| :: GoodKey(env[i].key)) && Untouched(env, k) && k in g.env
    ensures var g' := Apply(g, EnvLines(env)); k in g'.env && g'.env[k] == g.env[k]
  {
    hide ApplyLine, ExportLine, EnvLine, GoodKey;
    if env != [] {
      var prev, p := env[..|env| - 1], env[|env| - 1];
      assert forall i | 0 <= i < |prev| :: prev[i] == env[i];
      EnvKeeps(g, prev, k);
      var g1 := Apply(g, EnvLines(prev));
      ApplyAppend(g, EnvLines(prev), [ExportLine(p), EnvLine(p)]);
      ApplyTwo(g1, ExportLine(p), EnvLine(p));
      ExportApplies(g1, p);
      EnvApplies(ApplyLine(g1, ExportLine(p)), p);
    }
  }

  /** Printing a configuration on the host and reading it in the guest gives back every environment
      pair, under both of its names, and each of hostname, address and gateway exactly when it is
      not itself wrapped in quotes, as long as the file fits the guest's buffer. NET_MAC spells the
      hardware address, unless a pair of that name takes its place. */
  lemma ConfigRoundTrip(c: Config)
    requires Printable(c) && |Text(Lines(c))| <= GUEST_BUF
    ensures var g := ReadConfig(FRESH, Text(Lines(c)));
      && Holds(g, c.env)
      && (g.hostname == c.hostname <==> !Quoted(c.hostname))
      && (g.ip == c.ip <==> !Quoted(c.ip))
      && (g.gateway == c.gateway <==> !Quoted(c.gateway))
      && (c.hasNet && (forall i | 0 <= i < |c.env| :: c.env[i].key != "NET_MAC") ==>
            "NET_MAC" in g.env && Spells(g.env["NET_MAC"], c.mac))
  {
    hide Spells, Holds, Text, Tokens, HeadLines, EnvLines, Apply, GoodKey, Untouched;
    LinesPlain(c);
    SplitJoin(Lines(c));
    var head := Apply(FRESH, HeadLines(c));
    ApplyAppend(FRESH, HeadLines(c), EnvLines(c.env));
    HeadRoundTrip(c);
    EnvRoundTrip(head, c.env);
    if c.hasNet && forall i | 0 <= i < |c.env| :: c.env[i].key != "NET_MAC" {
      MacUntouched(c.env);
      EnvKeeps(head, c.env, "NET_MAC");
    }
  }

  lemma MacUntouched(env: seq<Pair>)
    requires forall i | 0 <= i < |env| :: env[i].key != "NET_MAC"
    ensures Untouched(env, "NET_MAC")
  {
    forall i | 0 <= i < |env| ensures "ENV_" + env[i].key != "NET_MAC" {
      assert ("ENV_" + env[i].key)[0] == 'E';
    }
  }

  // ---- The guest's loop ---------------------------------------------------

  /** Line breaks add no line. */
  lemma {:induction false} TokensBreaks(s: string, p: nat, q: nat)
    requires p <= q <= |s| && forall i | p <= i < q :: Break(s[i])
    ensures Tokens(s[..q]) == Tokens(s[..p])
  {
    if p < q {
      TokensBreaks(s, p, q - 1);
      assert s[..q][..q - 1] == s[..q - 1];
    }
  }

  /** The byte at i after strtok: the line break right behind a line is overwritten. */
  function Cut(text: string, i: nat): char
    requires i < |text|
  {
    if Break(text[i]) && i > 0 && !Break(text[i - 1]) then '\0' else text[i]
  }

  /** Where the next line starts. */
  method LineStart(buf: array<char>, n: nat, from: nat) returns (pos: nat)
    requires from <= n <= buf.Length
    ensures from <= pos <= n && (forall i | from <= i < pos :: Break(buf[i])) && (pos < n ==> !Break(buf[pos]))
  {
    pos := from;
    while pos < n && Break(buf[pos])
      invariant from <= pos <= n && forall i | from <= i < pos :: Break(buf[i])
    {
      pos := pos + 1;
    }
  }

  /** Where the line that starts at from ends. */
  method LineEnd(buf: array<char>, n: nat, from: nat) returns (pos: nat)
    requires from < n <= buf.Length && !Break(buf[from])
    ensures from < pos <= n && (forall i | from <= i < pos :: !Break(buf[i])) && (pos < n ==> Break(buf[pos]))
  {
    pos := from;
    while pos < n && !Break(buf[pos])
      invariant from <= pos <= n && (pos == from ==> !Break(buf[pos]))
      invariant forall i | from <= i < pos :: !Break(buf[i])
    {
      pos := pos + 1;
    }
  }

  /** One more line: what is behind it does not matter. */
  lemma NextLine(g: Guest, text: string, p: nat, from: nat, pos: nat)
    requires p <= from < pos <= |text| && (p == 0 || Break(text[p - 1]))
    requires (forall i | p <= i < from :: Break(text[i])) && forall i | from <= i < pos :: !Break(text[i])
    requires '\0' !in text
    ensures Apply(g, Tokens(text[..pos])) == ApplyLine(Apply(g, Tokens(text[..p])), text[from..pos])
  {
    hide Tokens, Apply, ApplyLine;
    TokensBreaks(text, p, from);
    TokensRun(text[..from], text[from..pos]);
    assert text[..from] + text[from..pos] == text[..pos];
    ApplySnoc(g, Tokens(text[..from]), text[from..pos]);
  }

  /** strtok over the buffer, cutting it in place: each line is applied as it is found, and nothing but
      the line break behind it is overwritten. */
  method ParseBuffer(buf: array<char>, n: nat, start: Guest) returns (g: Guest)
    requires n < buf.Length && '\0' !in buf[..n]
    modifies buf
    ensures g == Apply(start, Tokens(old(buf[..n])))
    ensures forall i | 0 <= i < n :: buf[i] == Cut(old(buf[..n]), i)
    ensures forall i | n <= i < buf.Length :: buf[i] == old(buf[i])
  {
    hide Tokens, Apply, ApplyLine;
    ghost var text := buf[..n];
    NoLines(start);
    assert text[..0] == "";
    g := start;
    var pos := LineStart(buf, n, 0);
    assert forall i | 0 <= i < pos :: text[i] == buf[i];
    ghost var p := 0;
    while pos < n
      invariant 0 <= p <= pos <= n && (pos < n ==> !Break(text[pos]))
      invariant forall i | p <= i < pos :: Break(text[i])
      invariant p == 0 || (p < n ==> Break(text[p - 1]))
      invariant forall i | p <= i < n :: buf[i] == text[i]
      invariant forall i | n <= i < buf.Length :: buf[i] == old(buf[i])
      invariant forall i | 0 <= i < p :: buf[i] == Cut(text, i)
      invariant g == Apply(start, Tokens(text[..p]))
      decreases n - pos
    {
      var from := pos;
      pos := LineEnd(buf, n, from);
      assert buf[from..pos] == text[from..pos];
      NextLine(start, text, p, from, pos);
      g := ApplyLine(g, buf[from..pos]);
      p := pos;
      if pos < n {
        buf[pos] := '\0';
        TokensBreaks(text, pos, pos + 1);
        pos, p := pos + 1, pos + 1;
      }
      pos := LineStart(buf, n, pos);
      assert forall i | p <= i < pos :: text[i] == buf[i];
    }
    TokensBreaks(text, p, n);
    assert text[..n] == text;
  }

  lemma NoLines(g: Guest)
    ensures Tokens("") == [] && Apply(g, []) == g
  {
  }

  lemma ApplySnoc(g: Guest, lines: seq<string>, line: string)
    ensures Apply(g, lines + [line]) == ApplyLine(Apply(g, lines), line)
  {
    assert (lines + [line])[..|lines|] == lines;
  }
}
