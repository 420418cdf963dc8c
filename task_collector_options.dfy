/** The collector's tunables and how the host registers the two sweeps. */
module Configuration {
  import opened Annotations

  datatype TaskCollectorOptions = TaskCollectorOptions(
    enableTaskCollector: bool,
    sweepInterval: int,
    minPriorityThreshold: int)

  /** The threshold annotation: 1..5. */
  predicate Valid(options: TaskCollectorOptions)
    ensures Valid(options) <==> 1 <= options.minPriorityThreshold <= 5
  {
    InRange(options.minPriorityThreshold, 1, 5)
  }

  /** The options when the configuration section sets nothing. */
  function Default(): (options: TaskCollectorOptions)
    ensures !options.enableTaskCollector
    ensures options.sweepInterval == 5000
    ensures options.minPriorityThreshold == 1
    ensures Valid(options)
  {
    TaskCollectorOptions(false, 5000, 1)
  }

  datatype HostedService = TaskCollectorService | TaskMarkerService

  /** The hosted services the application registers, given its collector options. */
  function RegisteredServices(options: TaskCollectorOptions): (services: set<HostedService>)
    ensures TaskCollectorService in services && TaskMarkerService in services
  {
    {TaskCollectorService, TaskMarkerService}
  }

  /** The enable flag is never read: enabling or disabling it registers the same services. */
  lemma EnableFlagIgnored(options: TaskCollectorOptions)
    ensures RegisteredServices(options.(enableTaskCollector := true))
         == RegisteredServices(options.(enableTaskCollector := false))
    ensures TaskCollectorService in RegisteredServices(options)
  {
  }
}
