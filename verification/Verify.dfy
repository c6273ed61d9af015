// agent/updates/manifest/verify.go: the checks every install makes on a trusted manifest.
module Verify {
  import opened Prelude
  import opened Manifest
  import SemVer

  datatype Replay = Fresh | Stale | Unreadable

  predicate NotDowngrade(current: string, target: string, allowDowngrade: bool) {
    current == "" || allowDowngrade || SemVer.Compare(target, current) >= 0
  }

  /** Requirements of the release notes against the running versions; "" is "not known". */
  predicate IsCompatible(c: ComponentUpdate, suite: string, core: string, adapter: string) {
    match c.notes
    case None => true
    case Some(n) =>
      && (n.requiredQRXVersion == "" || core == "" || SemVer.Satisfies(core, n.requiredQRXVersion))
      && (n.requiredAdapterVersion == "" || adapter == "" || SemVer.Satisfies(adapter, n.requiredAdapterVersion))
      && (n.minSuiteVersion == "" || suite == "" || SemVer.Compare(suite, n.minSuiteVersion) >= 0)
  }

  /** Compares instants, not strings; the same instant again is fine. */
  function ReplayCheck(releasedAt: string, lastSeen: string, instant: string -> Option<int>): Replay {
    if lastSeen == "" then Fresh
    else match (instant(releasedAt), instant(lastSeen))
      case (Some(now), Some(last)) => if now < last then Stale else Fresh
      case _ => Unreadable
  }
}
