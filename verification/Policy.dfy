/** app/core/policy.py: what one consumer system is allowed and how its data is masked. */
module Policy {
  import opened Entities
  import opened Engine
  import opened Masking

  datatype SystemPolicy = SystemPolicy(
    systemId: string, enabled: bool, pdTypes: set<PDType>, unmaskAllowed: bool, rules: Rules,
    combinations: Combinations)
}
