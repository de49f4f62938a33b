/** The token page's profile: the groups and subscriptions collected for a
    user, and the template context it renders with. */
module ProfileHtmx {
  import opened Wrappers
  import Strings
  import Utf8

  /** One subscription as the template shows it. */
  datatype Entry = Entry(kind: string, url: string, name: string, nickname: string)

  /** The values handed to the template. */
  datatype Context = Context(group: string, subscriptions: seq<Entry>, name: string)

  const MCP_PREFIX: string := "mcp-"
  const NICKNAME_BYTES: nat := 4
  const ENTRY_KIND: string := "openad_model"
  const ENTRY_URL: string := "https://dummy.url"

  lemma EncodeCons(c: char, p: string)
    ensures Utf8.Encode([c] + p) == Utf8.EncodeChar(c) + Utf8.Encode(p)
  {
    assert ([c] + p)[1..] == p;
  }

  /** `&s[0..n]` on the UTF-8 bytes of `s`: the prefix of `s` that is exactly
      `n` bytes long, or `None` where Rust panics because there are fewer
      than `n` bytes or byte `n` falls inside a character. */
  function TakeBytes(s: string, n: nat): (r: Option<string>)
    ensures r.Some? ==> Strings.StartsWith(s, r.value) && |Utf8.Encode(r.value)| == n
    ensures r.None? <==> forall k :: 0 <= k <= |s| ==> |Utf8.Encode(s[..k])| != n
    decreases |s|
  {
    if n == 0 then
      assert s[..0] == [];
      Some([])
    else if |s| == 0 then None
    else
      var c := Utf8.CharLen(s[0]);
      if c <= n then
        var rest := TakeBytes(s[1..], n - c);
        ConsPrefixes(s);
        match rest
        case Some(p) =>
          EncodeCons(s[0], p);
          assert Strings.StartsWith(s, [s[0]] + p) by {
            assert s[1..][..|p|] == p;
            assert s[..|p| + 1] == [s[0]] + s[1..][..|p|];
          }
          Some([s[0]] + p)
        case None => None
      else
        ConsPrefixes(s);
        None
  }

  /** The encoded length of each non-empty prefix of `s`, in terms of the
      prefixes of `s[1..]`. */
  lemma ConsPrefixes(s: string)
    requires |s| > 0
    ensures forall k :: 1 <= k <= |s| ==>
              |Utf8.Encode(s[..k])| == Utf8.CharLen(s[0]) + |Utf8.Encode(s[1..][..k - 1])|
    ensures |Utf8.Encode(s[..0])| == 0
  {
    forall k | 1 <= k <= |s|
      ensures |Utf8.Encode(s[..k])| == Utf8.CharLen(s[0]) + |Utf8.Encode(s[1..][..k - 1])|
    {
      assert s[..k] == [s[0]] + s[1..][..k - 1];
      EncodeCons(s[0], s[1..][..k - 1]);
    }
    assert s[..0] == [];
  }

  /** The nickname of a subscription: its first four bytes once one leading
      "mcp-" is removed; `None` where that slice panics. */
  function Nickname(service: string): (r: Option<string>)
    ensures r.Some? ==> |Utf8.Encode(r.value)| == NICKNAME_BYTES
    ensures r.Some? ==> Strings.StartsWith(Strings.StripPrefixOr(service, MCP_PREFIX), r.value)
  {
    TakeBytes(Strings.StripPrefixOr(service, MCP_PREFIX), NICKNAME_BYTES)
  }

  /** An ASCII service name of at least four characters after the prefix
      has its first four characters as nickname. */
  lemma {:induction false} NicknameAscii(rest: string, prefixed: bool)
    requires |rest| >= 4 && forall i :: 0 <= i < 4 ==> rest[i] as int < 0x80
    requires prefixed || !Strings.StartsWith(rest, MCP_PREFIX)
    ensures Nickname(if prefixed then MCP_PREFIX + rest else rest) == Some(rest[..4])
  {
    var service := if prefixed then MCP_PREFIX + rest else rest;
    assert Strings.StripPrefixOr(service, MCP_PREFIX) == rest by {
      if prefixed {
        assert service[..|MCP_PREFIX|] == MCP_PREFIX;
      }
    }
    var p := rest[..4];
    assert p == [p[0]] + [p[1]] + [p[2]] + [p[3]];
    assert |Utf8.Encode(p)| == 4 by {
      EncodeCons(p[0], p[1..]);
      EncodeCons(p[1], p[2..]);
      EncodeCons(p[2], p[3..]);
      EncodeCons(p[3], p[4..]);
      assert p[1..] == [p[1]] + p[2..];
      assert p[2..] == [p[2]] + p[3..];
      assert p[3..] == [p[3]] + p[4..];
    }
    var r := TakeBytes(rest, 4);
    assert r.Some?;
    assert r.value == p by {
      assert Strings.StartsWith(rest, r.value);
      if |r.value| < 4 {
        EncodePrefixStrict(rest, |r.value|, 4);
      } else if |r.value| > 4 {
        EncodePrefixStrict(rest, 4, |r.value|);
      }
    }
  }

  /** Longer prefixes encode to more bytes. */
  lemma {:induction false} EncodePrefixStrict(s: string, j: nat, k: nat)
    requires j < k <= |s|
    ensures |Utf8.Encode(s[..j])| < |Utf8.Encode(s[..k])|
    decreases k
  {
    assert s[..k] == s[..k - 1] + [s[k - 1]];
    EncodeAppendLength(s[..k - 1], s[k - 1]);
    if j < k - 1 {
      EncodePrefixStrict(s, j, k - 1);
    }
  }

  lemma EncodeAppendLength(p: string, c: char)
    ensures |Utf8.Encode(p + [c])| == |Utf8.Encode(p)| + Utf8.CharLen(c)
  {
    Utf8.EncodeAppend(p, [c]);
    assert Utf8.Encode([c]) == Utf8.EncodeChar(c) by { assert [c][1..] == []; }
  }

  /** With fewer than four bytes left after the prefix, `render` panics. */
  lemma NicknameShortPanics(service: string)
    requires |Utf8.Encode(Strings.StripPrefixOr(service, MCP_PREFIX))| < NICKNAME_BYTES
    ensures Nickname(service).None?
  {
    var rest := Strings.StripPrefixOr(service, MCP_PREFIX);
    forall k | 0 <= k <= |rest| ensures |Utf8.Encode(rest[..k])| != NICKNAME_BYTES {
      assert rest[..|rest|] == rest;
      if k < |rest| {
        EncodePrefixStrict(rest, k, |rest|);
      }
    }
  }

  /** `render`'s subscription list: one entry per subscription, in order, or
      `None` where a nickname panics. */
  function Expand(subscriptions: seq<string>): (r: Option<seq<Entry>>)
    ensures r.Some? <==> forall i :: 0 <= i < |subscriptions| ==> Nickname(subscriptions[i]).Some?
    ensures r.Some? ==> |r.value| == |subscriptions|
    ensures r.Some? ==> forall i :: 0 <= i < |subscriptions| ==>
              r.value[i] == Entry(ENTRY_KIND, ENTRY_URL, subscriptions[i], Nickname(subscriptions[i]).value)
    decreases |subscriptions|
  {
    if |subscriptions| == 0 then Some([])
    else
      var last := subscriptions[|subscriptions| - 1];
      var init := subscriptions[..|subscriptions| - 1];
      match (Expand(init), Nickname(last))
      case (Some(es), Some(nick)) => Some(es + [Entry(ENTRY_KIND, ENTRY_URL, last, nick)])
      case _ => None
  }

  /** The groups as the template shows them. */
  function GroupLine(groups: seq<string>): string {
    Strings.Join(groups, ", ")
  }

  /** Adding a group extends the rendered line by the separator and that
      group. */
  lemma {:induction false} GroupLineAppend(groups: seq<string>, group: string)
    ensures GroupLine(groups + [group]) == if |groups| == 0 then group else GroupLine(groups) + ", " + group
    decreases |groups|
  {
    if |groups| == 0 {
      assert groups + [group] == [group];
    } else if |groups| == 1 {
      assert (groups + [group])[1..] == [group];
      assert Strings.Join([group], ", ") == group;
      assert GroupLine(groups) == groups[0];
    } else {
      assert (groups + [group])[1..] == groups[1..] + [group];
      GroupLineAppend(groups[1..], group);
    }
  }

  /** `Profile`: what the token page shows about one user. */
  class Profile {
    var groups: seq<string>
    var subscriptions: seq<string>
    var name: string

    /** `Profile::new` */
    constructor(name: string)
      ensures groups == [] && subscriptions == [] && this.name == name
    {
      groups := [];
      subscriptions := [];
      this.name := name;
    }

    /** `add_group`: appends, and nothing else changes. */
    method AddGroup(group: string)
      modifies this
      ensures groups == old(groups) + [group]
      ensures subscriptions == old(subscriptions) && name == old(name)
    {
      groups := groups + [group];
    }

    /** `add_subscription`: appends, and nothing else changes. */
    method AddSubscription(subscription: string)
      modifies this
      ensures subscriptions == old(subscriptions) + [subscription]
      ensures groups == old(groups) && name == old(name)
    {
      subscriptions := subscriptions + [subscription];
    }

    /** `render`'s template context, or `None` where it panics. */
    function Render(): (r: Option<Context>)
      reads this
      ensures r.Some? <==> Expand(subscriptions).Some?
      ensures r.Some? ==> r.value.group == GroupLine(groups) && r.value.name == name
      ensures r.Some? ==> |r.value.subscriptions| == |subscriptions|
      ensures r.Some? ==> forall i :: 0 <= i < |subscriptions| ==>
                r.value.subscriptions[i] == Entry(ENTRY_KIND, ENTRY_URL, subscriptions[i], Nickname(subscriptions[i]).value)
      ensures r.Some? ==> r.value.subscriptions == Expand(subscriptions).value
    {
      match Expand(subscriptions)
      case Some(es) => Some(Context(GroupLine(groups), es, name))
      case None => None
    }
  }
}
