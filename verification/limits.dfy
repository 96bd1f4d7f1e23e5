/**
 * The constant tables of the validators: FILE_VALIDATION, DATA_VALIDATION and
 * AGENT_VALIDATION.
 */
module Limits {

  // FILE_VALIDATION
  const MaxFileSize: nat := 10 * 1024 * 1024
  const AllowedTypes: seq<string> := [
    "text/csv",
    "application/vnd.ms-excel",
    "application/vnd.openxmlformats-officedocument.spreadsheetml.sheet"
  ]
  const AllowedExtensions: seq<string> := [".csv", ".xlsx", ".xls"]

  // DATA_VALIDATION
  const NameMinLength: nat := 2
  const NameMaxLength: nat := 50
  const PhoneMinLength: nat := 10
  const PhoneMaxLength: nat := 15
  const NotesMaxLength: nat := 500

  // AGENT_VALIDATION
  const MinAgents: nat := 1
  const MaxTasksPerAgent: nat := 200
  /** `MAX_TASKS_PER_AGENT * 0.8`; the double product is exactly 160. */
  const CapacityWarningLoad: nat := 160
}
