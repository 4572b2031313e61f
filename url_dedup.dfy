/**
 * The guard in front of link-click and new-window events: a url that was admitted less
 * than a second ago is ignored, so one click that fires twice creates one trail. The
 * module-level `recentlyCreatedUrls` map records when each url was last admitted and is
 * pruned of entries older than two seconds on every admission.
 */
module UrlDedup {

  /** A repeat of a url within this many milliseconds of its admission is ignored. */
  const RepeatWindow := 1000

  /** Entries older than this many milliseconds are purged. */
  const RetainWindow := 2000

  /** The entries of `m` not older than `RetainWindow` at time `now`. */
  function Purged(m: map<string, int>, now: int): (r: map<string, int>)
    ensures forall u :: u in r <==> u in m && now - m[u] <= RetainWindow
    ensures forall u :: u in r ==> r[u] == m[u]
  {
    map u | u in m && now - m[u] <= RetainWindow :: m[u]
  }

  class RecentUrls {
    /** `recentlyCreatedUrls`: when each url was last admitted. */
    var created: map<string, int>

    constructor ()
      ensures created == map[]
    {
      created := map[];
    }

    /** `lastCreated && now - lastCreated < 1000`, where a time of 0 is falsy. */
    predicate Suppressed(url: string, now: int)
      reads this
      ensures Suppressed(url, now) ==> url in created && now < created[url] + RepeatWindow
      ensures url in created && created[url] != 0 && created[url] <= now < created[url] + RepeatWindow ==> Suppressed(url, now)
    {
      url in created && created[url] != 0 && now - created[url] < RepeatWindow
    }

    /**
     * Handle an event for `url` at time `now`: report whether it is admitted. An admitted
     * url is recorded at `now`, after which the entries older than two seconds are purged.
     */
    method Admit(url: string, now: int) returns (admitted: bool)
      modifies this
      ensures admitted == !old(Suppressed(url, now))
      ensures !admitted ==> created == old(created)
      ensures admitted ==> created == Purged(old(created)[url := now], now)
      ensures admitted ==> url in created && created[url] == now
      ensures admitted ==> forall u :: u in created ==> now - created[u] <= RetainWindow
      ensures admitted && now != 0 ==> forall t :: now <= t < now + RepeatWindow ==> Suppressed(url, t)
    {
      if url in created && created[url] != 0 && now - created[url] < RepeatWindow {
        return false;
      }
      created := created[url := now];
      ghost var recorded := created;
      var pending := created.Keys;
      while pending != {}
        invariant pending <= recorded.Keys
        invariant forall u :: u in created <==> u in recorded && (u in pending || now - recorded[u] <= RetainWindow)
        invariant forall u :: u in created ==> created[u] == recorded[u]
        decreases pending
      {
        var u :| u in pending;
        if now - created[u] > RetainWindow {
          created := created - {u};
        }
        pending := pending - {u};
      }
      assert created == Purged(recorded, now);
      return true;
    }
  }
}
