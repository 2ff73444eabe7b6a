/** `PluginOpts`: the transport tuning knobs a plugin invocation may carry, each one
    optional, and the two questions the brokers ask of them: is any transport setting
    given at all, and is any of the no-delay settings given. */
module Opt {
  import opened Wrappers
  import Bytes

  const USizeLimit: nat := 0x1_0000_0000_0000_0000

  /** `usize` (64-bit targets), `i32` and `u32`. */
  type USize = n: nat | n < USizeLimit
  type I32 = n: int | -0x8000_0000 <= n < 0x8000_0000
  type U32 = n: nat | n < Bytes.U32Limit

  datatype PluginOpts = PluginOpts(
    mtu: Option<USize>,
    nodelay: Option<bool>,
    interval: Option<I32>,
    resend: Option<I32>,
    nc: Option<bool>,
    rxMinrto: Option<U32>)

  /** `#[derive(Default)]`: every knob absent. */
  function Default(): (o: PluginOpts)
    ensures o.mtu.None? && o.nodelay.None? && o.interval.None?
    ensures o.resend.None? && o.nc.None? && o.rxMinrto.None?
  {
    PluginOpts(None, None, None, None, None, None)
  }

  /** `has_kcp_nodelay_config`: one of `nodelay`, `interval`, `resend`, `nc` is given,
      that is, the four no-delay knobs are not all at their defaults. */
  function HasKcpNodelayConfig(o: PluginOpts): (r: bool)
    ensures r <==> o.(mtu := None, rxMinrto := None) != Default()
  {
    o.nodelay.Some? || o.interval.Some? || o.resend.Some? || o.nc.Some?
  }

  /** `has_kcp_config`: `mtu` or `rx_minrto` is given, or a no-delay setting is; that
      is, the options differ from the defaults. */
  function HasKcpConfig(o: PluginOpts): (r: bool)
    ensures r <==> o != Default()
  {
    o.mtu.Some? || HasKcpNodelayConfig(o) || o.rxMinrto.Some?
  }

  /** A no-delay setting is a transport setting. */
  lemma NodelayIsKcpConfig(o: PluginOpts)
    ensures HasKcpNodelayConfig(o) ==> HasKcpConfig(o)
    ensures HasKcpConfig(o) && !HasKcpNodelayConfig(o) ==> o.mtu.Some? || o.rxMinrto.Some?
  {
  }

  /** The default options carry no transport setting at all. */
  lemma DefaultHasNoKcpConfig()
    ensures !HasKcpConfig(Default()) && !HasKcpNodelayConfig(Default())
  {
  }

  /** The no-delay question looks at the four no-delay knobs only, whatever `mtu` and
      `rx_minrto` say. */
  lemma NodelayIgnoresOtherKnobs(o: PluginOpts)
    ensures forall m: Option<USize>, r: Option<U32> ::
      HasKcpNodelayConfig(o.(mtu := m, rxMinrto := r)) == HasKcpNodelayConfig(o)
  {
  }
}
