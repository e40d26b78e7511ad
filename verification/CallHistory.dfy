/** How a Celery task's delivery records what it has done: the states it went through, with the buckets as they were. */
module CallHistory {
  import opened Storage

  datatype Config<D> = Config(delivery: D, buckets: Buckets)

  ghost function BucketsOf<D>(run: seq<Config<D>>): seq<Buckets> {
    seq(|run|, i requires 0 <= i < |run| => run[i].buckets)
  }

  /** The state that the run has come to. */
  ghost function At<D>(run: seq<Config<D>>): D
    requires run != []
  {
    run[|run| - 1].delivery
  }

  /** The run has one step for every call that aws has seen since its history was before. */
  ghost predicate Accounts<D, Message>(run: seq<Config<D>>, aws: Aws<Message>, before: seq<Buckets>)
    reads aws
  {
    && run != [] && run[|run| - 1].buckets == aws.buckets
    && before + BucketsOf(run)[1..] == aws.history
  }

  ghost function Grow<D>(run: seq<Config<D>>, d: D, b: Buckets): (longer: seq<Config<D>>)
    requires run != []
    ensures |longer| == |run| + 1 && run <= longer && longer[|run|] == Config(d, b)
    ensures BucketsOf(longer)[1..] == BucketsOf(run)[1..] + [b]
  {
    run + [Config(d, b)]
  }
}
