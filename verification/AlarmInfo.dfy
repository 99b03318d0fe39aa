/** What the alarm checker reads, and TAttrWarnInfo, what it hands on: an alarm with its flag taken apart. */
module AlarmInfo {
  import opened ReportWindow

  datatype Kind = Minimum | Maximum | Wave | Exception

  /** iWarnId, a machine or a view, and iAttrId. */
  datatype Key = Key(owner: int, attr: int)

  /** A node of the report table; its owner is a machine. */
  datatype NodeRef = NodeRef(key: Key, window: Window)

  datatype Alarm = Alarm(kind: Kind, onMachine: bool, masked: bool, key: Key, threshold: int, value: int, at: nat)

  /** What alarms are merged by: the flag without the mask bit, the object and the attribute. */
  datatype Subject = Subject(key: Key, kind: Kind, onMachine: bool)

  function SubjectOf(a: Alarm): Subject {
    Subject(a.key, a.kind, a.onMachine)
  }
}
