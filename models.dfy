// The records that travel through the activity path and the writer's options.
module Models {
  import opened Common
  import opened Calendar

  /** One audit line once parsed: when, what kind of request, which device, and its details. */
  datatype AuditEntry = AuditEntry(timestamp: DateTime, auditType: string, deviceId: string, data: string)

  /** What the counter store remembers between files. */
  datatype CounterState = CounterState(date: Date, counter: int32, lastGeneratedFile: string)

  /** The site identifier the writer puts after the leading 'S' of every file name. */
  const DefaultCebConcentrateur: string := "CTD_API-----------"

  /** The largest number of entries the batching stage groups into one file. */
  const MaxBatchSize: nat := 10000

  datatype ActivityFileOptions = ActivityFileOptions(
    outputPath: string,
    counterFilePath: string,
    tempPath: string,
    cebConcentrateur: string)

  const DefaultOptions: ActivityFileOptions :=
    ActivityFileOptions("activities", "activities/counter.dat", "activities/temp", DefaultCebConcentrateur)
}
