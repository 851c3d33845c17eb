/**
 * Cluster configuration: a record built by applying functional options, the
 * defaults first and then the caller's, over the zero-valued record.
 */
module Clusters {
  import opened Bytes

  datatype Cluster = Cluster(contactPoints: seq<GoString>, port: int, protocolVersion: int)

  /** Go's zero value of `Cluster`. */
  const ZeroCluster := Cluster([], 0, 0)

  /** The three options the driver offers; each overwrites one field. */
  datatype ClusterOption =
    | ContactPoints(points: seq<GoString>)
    | Port(portNumber: int)
    | ProtocolVersion(version: int)

  /** Names the field of a `Cluster`. */
  datatype Field = ContactPointsField | PortField | ProtocolVersionField

  /** The contents of one field. */
  datatype FieldValue = Points(points: seq<GoString>) | Number(n: int)

  function Get(c: Cluster, f: Field): FieldValue
  {
    match f
    case ContactPointsField => Points(c.contactPoints)
    case PortField => Number(c.port)
    case ProtocolVersionField => Number(c.protocolVersion)
  }

  /** The field an option writes. */
  function Target(o: ClusterOption): Field
  {
    match o
    case ContactPoints(_) => ContactPointsField
    case Port(_) => PortField
    case ProtocolVersion(_) => ProtocolVersionField
  }

  /** The value an option writes. */
  function Written(o: ClusterOption): FieldValue
  {
    match o
    case ContactPoints(ps) => Points(ps)
    case Port(p) => Number(p)
    case ProtocolVersion(v) => Number(v)
  }

  /** A cluster is determined by its three fields. */
  lemma FieldsDetermine(c: Cluster, d: Cluster)
    ensures (forall f :: Get(c, f) == Get(d, f)) <==> c == d
  {
    if forall f :: Get(c, f) == Get(d, f) {
      assert Get(c, ContactPointsField) == Get(d, ContactPointsField);
      assert Get(c, PortField) == Get(d, PortField);
      assert Get(c, ProtocolVersionField) == Get(d, ProtocolVersionField);
    }
  }

  /** Runs one option against the record: its field takes the option's value, unvalidated. */
  function Apply(c: Cluster, o: ClusterOption): (r: Cluster)
    ensures Get(r, Target(o)) == Written(o)
    ensures forall f :: f != Target(o) ==> Get(r, f) == Get(c, f)
  {
    match o
    case ContactPoints(ps) => c.(contactPoints := ps)
    case Port(p) => c.(port := p)
    case ProtocolVersion(v) => c.(protocolVersion := v)
  }

  /**
   * Runs the options in order, as the `for ... range` loop does. A field no
   * option writes keeps its value; `LastWriterWins` gives the others.
   */
  function ApplyAll(c: Cluster, opts: seq<ClusterOption>): (r: Cluster)
    ensures forall f :: Untouched(opts, f) ==> Get(r, f) == Get(c, f)
    decreases |opts|
  {
    if opts == [] then c
    else
      assert forall f :: Untouched(opts, f) ==> Untouched(opts[1..], f) by {
        forall f, j | Untouched(opts, f) && 0 <= j < |opts[1..]| ensures Target(opts[1..][j]) != f {
          assert opts[1..][j] == opts[j + 1];
        }
      }
      ApplyAll(Apply(c, opts[0]), opts[1..])
  }

  /** No option in `opts` writes `f`. */
  ghost predicate Untouched(opts: seq<ClusterOption>, f: Field)
  {
    forall i :: 0 <= i < |opts| ==> Target(opts[i]) != f
  }

  /** `opts[i]` is the last option in `opts` that writes `f`. */
  ghost predicate LastWriter(opts: seq<ClusterOption>, i: int, f: Field)
  {
    0 <= i < |opts| && Target(opts[i]) == f && Untouched(opts[i + 1..], f)
  }

  /** For every field that some option writes, the last such option wins. */
  lemma {:induction false} LastWriterWins(c: Cluster, opts: seq<ClusterOption>)
    decreases |opts|
    ensures forall f, i :: LastWriter(opts, i, f) ==> Get(ApplyAll(c, opts), f) == Written(opts[i])
  {
    if opts != [] {
      var c' := Apply(c, opts[0]);
      var tail := opts[1..];
      LastWriterWins(c', tail);
      forall f, i | LastWriter(opts, i, f)
        ensures Get(ApplyAll(c, opts), f) == Written(opts[i])
      {
        if i == 0 {
          assert tail == opts[1..];
        } else {
          assert tail[i - 1..] == opts[i..];
          assert tail[i..] == opts[i + 1..];
          assert LastWriter(tail, i - 1, f);
          assert tail[i - 1] == opts[i];
        }
      }
    }
  }

  /** Applying `xs ++ ys` is applying `xs` and then `ys`. */
  lemma {:induction false} ApplyAllAppend(c: Cluster, xs: seq<ClusterOption>, ys: seq<ClusterOption>)
    ensures ApplyAll(c, xs + ys) == ApplyAll(ApplyAll(c, xs), ys)
    decreases |xs|
  {
    if xs != [] {
      assert (xs + ys)[1..] == xs[1..] + ys;
      ApplyAllAppend(Apply(c, xs[0]), xs[1..], ys);
    } else {
      assert xs + ys == ys;
    }
  }

  /** Adjacent options that write different fields can be swapped. */
  lemma DistinctOptionsCommute(c: Cluster, xs: seq<ClusterOption>, a: ClusterOption, b: ClusterOption, ys: seq<ClusterOption>)
    requires Target(a) != Target(b)
    ensures ApplyAll(c, xs + [a, b] + ys) == ApplyAll(c, xs + [b, a] + ys)
  {
    ApplyAllAppend(c, xs + [a, b], ys);
    ApplyAllAppend(c, xs + [b, a], ys);
    ApplyAllAppend(c, xs, [a, b]);
    ApplyAllAppend(c, xs, [b, a]);
    var m := ApplyAll(c, xs);
    assert [a, b][1..] == [b] && [b, a][1..] == [a];
    FieldsDetermine(Apply(Apply(m, a), b), Apply(Apply(m, b), a));
  }

  /** Repeating an option adjacently changes nothing. */
  lemma RepeatedOptionIdempotent(c: Cluster, xs: seq<ClusterOption>, a: ClusterOption, ys: seq<ClusterOption>)
    ensures ApplyAll(c, xs + [a, a] + ys) == ApplyAll(c, xs + [a] + ys)
  {
    ApplyAllAppend(c, xs + [a, a], ys);
    ApplyAllAppend(c, xs + [a], ys);
    ApplyAllAppend(c, xs, [a, a]);
    ApplyAllAppend(c, xs, [a]);
    var m := ApplyAll(c, xs);
    assert [a, a][1..] == [a];
    FieldsDetermine(Apply(Apply(m, a), a), Apply(m, a));
  }

  const MaxSupportedVersion: int := 4

  /** Default port, contact point and protocol version, in that order. */
  /** The default contact point, "127.0.0.1". */
  const Localhost: GoString := Ascii("127.0.0.1")

  const DefaultOptions: seq<ClusterOption> := [Port(9042), ContactPoints([Localhost]), ProtocolVersion(4)]

  /**
   * Builds the configuration: every field is set by the last caller option
   * that writes it, or else by its default; the zero value never shows
   * through. The Go function's error result is always nil.
   */
  function NewCluster(options: seq<ClusterOption>): (r: Cluster)
    ensures Untouched(options, PortField) ==> r.port == 9042
    ensures Untouched(options, ContactPointsField) ==> r.contactPoints == [Localhost]
    ensures Untouched(options, ProtocolVersionField) ==> r.protocolVersion == MaxSupportedVersion
    ensures forall f, i :: LastWriter(options, i, f) ==> Get(r, f) == Written(options[i])
  {
    var all := DefaultOptions + options;
    LastWriterWins(ZeroCluster, all);
    assert forall f, i :: LastWriter(options, i, f) ==> LastWriter(all, i + 3, f) by {
      forall f, i | LastWriter(options, i, f) ensures LastWriter(all, i + 3, f) {
        assert all[i + 3..] == options[i..];
        assert all[i + 4..] == options[i + 1..];
      }
    }
    forall f | Untouched(options, f)
      ensures LastWriter(all, DefaultIndex(f), f)
    {
      var i := DefaultIndex(f);
      var after := all[i + 1..];
      forall j | 0 <= j < |after| ensures Target(after[j]) != f {
        if i + 1 + j >= 3 {
          assert after[j] == options[i + 1 + j - 3];
        }
      }
    }
    ApplyAll(ZeroCluster, all)
  }

  /** Position in `DefaultOptions` of the option that writes `f`. */
  function DefaultIndex(f: Field): (i: nat)
    ensures i < |DefaultOptions| && Target(DefaultOptions[i]) == f
  {
    match f
    case PortField => 0
    case ContactPointsField => 1
    case ProtocolVersionField => 2
  }

  /** With no options the defaults apply, and the version is the highest supported. */
  lemma NewClusterDefaults()
    ensures NewCluster([]) == Cluster([Localhost], 9042, 4)
    ensures NewCluster([]).protocolVersion == MaxSupportedVersion
  {
  }

  /** One option changes its own field only; values are taken without validation. */
  lemma NewClusterSingleOption(o: ClusterOption)
    ensures Get(NewCluster([o]), Target(o)) == Written(o)
    ensures forall f :: f != Target(o) ==> Get(NewCluster([o]), f) == Get(NewCluster([]), f)
  {
    assert LastWriter([o], 0, Target(o));
    forall f | f != Target(o) ensures Get(NewCluster([o]), f) == Get(NewCluster([]), f) {
      assert Untouched([o], f);
      match f
      case ContactPointsField =>
      case PortField =>
      case ProtocolVersionField =>
    }
  }
}
