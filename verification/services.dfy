/** The pair of topics a service talks on: clients publish requests on one
    and the service's workers answer on the other. */
module Services {
  import opened Tokens

  datatype ServiceInfo = ServiceInfo(name: string)

  const TopicPrefix: string := "$.service."
  const PublishKind: string := "pub"
  const SubscribeKind: string := "sub"

  /** The topic of one kind for a service name: the prefix, the name, a
      separator and the kind. */
  function Topic(name: string, kind: string): (t: string)
    requires Sep !in kind
    ensures Split(t) == ["$", "service"] + Split(name) + [kind]
  {
    TopicSplit(name, kind);
    TopicPrefix + name + [Sep] + kind
  }

  lemma TopicSplit(name: string, kind: string)
    requires Sep !in kind
    ensures Split(TopicPrefix + name + [Sep] + kind) == ["$", "service"] + Split(name) + [kind]
  {
    var rest := "service" + [Sep] + name;
    var init := "$" + [Sep] + rest;
    assert TopicPrefix + name == init;
    SplitBeforeLast(init, kind);
    SplitAtSep("service", name);
    assert Split(rest) == ["service"] + Split(name);
    SplitAtSep("$", rest);
    assert Split(init) == ["$", "service"] + Split(name);
  }

  /** The publish and subscribe topics of a service. Whatever the name
      holds, the two topics differ and split into `$`, `service`, the
      name's own tokens and a last `pub` or `sub` token. */
  function Topics(s: ServiceInfo): (r: (string, string))
    ensures r.0 != r.1
    ensures Split(r.0) == ["$", "service"] + Split(s.name) + ["pub"]
    ensures Split(r.1) == ["$", "service"] + Split(s.name) + ["sub"]
  {
    var pub := Topic(s.name, PublishKind);
    var sub := Topic(s.name, SubscribeKind);
    assert Split(pub)[|Split(pub)| - 1] != Split(sub)[|Split(sub)| - 1];
    (pub, sub)
  }

  /** A service's name can be read back from either of its topics, so no two
      services share a topic of the same kind. */
  lemma TopicsInjective(a: ServiceInfo, b: ServiceInfo)
    ensures Topics(a).0 == Topics(b).0 <==> a == b
    ensures Topics(a).1 == Topics(b).1 <==> a == b
  {
    var pa, pb := Topics(a).0, Topics(b).0;
    var sa, sb := Topics(a).1, Topics(b).1;
    assert pa[10..|pa| - 4] == a.name && pb[10..|pb| - 4] == b.name;
    assert sa[10..|sa| - 4] == a.name && sb[10..|sb| - 4] == b.name;
  }

  /** No service's publish topic is any service's subscribe topic. */
  lemma PublishNeverSubscribe(a: ServiceInfo, b: ServiceInfo)
    ensures Topics(a).0 != Topics(b).1
  {
    var p, s := Topics(a).0, Topics(b).1;
    assert p[|p| - 3] == 'p' && s[|s| - 3] == 's';
  }

  /** A name whose tokens are all non-empty gives two valid topics, one
      token longer at each end than the name. */
  lemma TopicsValid(s: ServiceInfo)
    requires TokensNonEmpty(s.name)
    ensures ValidTopic(Topics(s).0) && ValidTopic(Topics(s).1)
    ensures |Split(Topics(s).0)| == |Split(s.name)| + 3 && |Split(Topics(s).1)| == |Split(s.name)| + 3
    ensures Sep !in s.name ==> |Split(Topics(s).0)| == 4 && |Split(Topics(s).1)| == 4
  {
    if Sep !in s.name {
      SplitSingle(s.name);
    }
    var t := Split(s.name);
    var pub := Split(Topics(s).0);
    var sub := Split(Topics(s).1);
    forall i | 0 <= i < |pub| ensures |pub[i]| > 0 {
      if 2 <= i < |t| + 2 {
        assert pub[i] == t[i - 2];
      }
    }
    forall i | 0 <= i < |sub| ensures |sub[i]| > 0 {
      if 2 <= i < |t| + 2 {
        assert sub[i] == t[i - 2];
      }
    }
  }
}
