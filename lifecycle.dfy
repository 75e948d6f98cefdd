/**
 * The user-facing lifecycle capability of component/lifecycle.go.
 *
 * A lifecycle implementation is user code, so it is modelled as an opaque
 * value; what its Start and Stop calls return is supplied to the model as
 * an oracle reply instead of being computed.
 */
module Lifecycles {
  /** A Lifecycle interface value: nil, or some user implementation identified by `id`. */
  datatype Lifecycle = Nil | Lifecycle(id: nat)

  /** Go's `Context`: dependency name to lifecycle value. */
  type Context = map<string, Lifecycle>

  /** What a user `Start(ctx) (Lifecycle, error)` call returns. */
  datatype StartReply = StartOk(value: Lifecycle) | StartErr

  /** What a user `Stop(ctx) error` call returns. */
  datatype StopReply = StopOk | StopErr
}
