/** The workload summaries the service page hands to the wizards. */
module ServiceInfo {
  /** A workload behind the service: its name and its Kubernetes labels. */
  datatype WorkloadOverview = WorkloadOverview(name: string, labels: map<string, string>)
}
