// The middleware object of internal/middleware/ratelimit/ratelimit.go: limiter objects
// updated in place, proved against the value-level chain of module LimiterChain.

module RateLimitMiddlewares {
  import opened Options
  import opened SlidingWindow
  import opened LimiterChain

  class RateLimitMiddleware {
    const config: Limits
    var limiters: map<string, MemoryRateLimiter>
    var globalLimiter: MemoryRateLimiter?

    /** No two names share a limiter object, and none shares the global one. */
    ghost predicate Valid()
      reads this
    {
      && (forall n, n' | n in limiters && n' in limiters && n != n' :: limiters[n] != limiters[n'])
      && (forall n | n in limiters :: limiters[n] != globalLimiter)
    }

    ghost function Objects(): set<object>
      reads this
    {
      (set n | n in limiters :: limiters[n]) + if globalLimiter == null then {} else {globalLimiter}
    }

    static function Snapshot(l: MemoryRateLimiter): Limiter
      reads l
    {
      Limiter(l.TheRule(), l.requests)
    }

    /** The chain this object holds. */
    ghost function View(): Chain
      reads this, Objects()
    {
      Chain(
        if globalLimiter == null then None else Some(Snapshot(globalLimiter)),
        map n | n in limiters :: Snapshot(limiters[n]))
    }

    constructor (cfg: Limits)
      ensures Valid() && fresh(Objects())
      ensures config == cfg && View() == NewChain(cfg)
    {
      config := cfg;
      limiters := map[];
      globalLimiter := null;
      new;
      if cfg.enabled {
        globalLimiter := new MemoryRateLimiter(cfg.globalLimit, MINUTE);
        if cfg.ip.limit > 0 {
          Install("ip", cfg.ip);
        }
        if cfg.user.limit > 0 {
          Install("user", cfg.user);
        }
      }
    }

    /** Put a new limiter object under a name. */
    method Install(name: string, rule: Rule)
      requires Valid()
      modifies this`limiters
      ensures Valid() && fresh(Objects() - old(Objects()))
      ensures View() == old(View()).(limiters := old(View()).limiters[name := Limiter(rule, map[])])
      ensures name in limiters && fresh(limiters[name]) && limiters == old(limiters)[name := limiters[name]]
    {
      var l := new MemoryRateLimiter(rule.limit, rule.window);
      limiters := limiters[name := l];
      assert View().limiters == old(View()).limiters[name := Limiter(rule, map[])];
    }

    method GlobalRateLimit(now: int) returns (pass: bool)
      requires Valid()
      modifies Objects()
      ensures Valid() && unchanged(this)
      ensures (View(), pass) == GlobalStage(config, old(View()), now)
    {
      if !config.enabled || globalLimiter == null {
        return true;
      }
      pass := globalLimiter.Allow("global", now);
      assert View().limiters == old(View()).limiters;
    }

    // One call on a registered limiter.
    method UseLimiter(name: string, key: string, now: int) returns (pass: bool)
      requires Valid() && name in limiters
      modifies Objects()
      ensures Valid() && unchanged(this)
      ensures (View(), pass) == UseNamed(old(View()), name, key, now)
    {
      pass := limiters[name].Allow(key, now);
      assert View().limiters == old(View()).limiters[name := Snapshot(limiters[name])];
    }

    method IPRateLimit(r: Request, now: int) returns (pass: bool)
      requires Valid()
      modifies Objects()
      ensures Valid() && unchanged(this)
      ensures (View(), pass) == IPStage(config, old(View()), r, now)
    {
      if !config.enabled || "ip" !in limiters {
        return true;
      }
      pass := UseLimiter("ip", "ip:" + r.ip, now);
    }

    method UserRateLimit(r: Request, now: int) returns (pass: bool)
      requires Valid()
      modifies Objects()
      ensures Valid() && unchanged(this)
      ensures (View(), pass) == UserStage(config, old(View()), r, now)
    {
      if !config.enabled || "user" !in limiters {
        return true;
      }
      match r.user {
        case None => pass := UseLimiter("user", "user:anonymous:" + r.ip, now);
        case Some(id) => pass := UseLimiter("user", "user:" + id, now);
      }
    }

    method GetOrCreateAPILimiter(key: string, rule: Rule) returns (l: MemoryRateLimiter)
      requires Valid()
      modifies this`limiters
      ensures Valid() && key in limiters && limiters[key] == l
      ensures key in old(limiters) ==> l == old(limiters)[key] && limiters == old(limiters)
      ensures key !in old(limiters) ==> fresh(l) && limiters == old(limiters)[key := l]
      ensures View() == WithAPILimiter(old(View()), key, rule)
      ensures fresh(Objects() - old(Objects()))
    {
      if key in limiters {
        return limiters[key];
      }
      Install(key, rule);
      return limiters[key];
    }

    method APIRateLimit(r: Request, now: int) returns (pass: bool)
      requires Valid()
      modifies this`limiters, Objects()
      ensures Valid() && fresh(Objects() - old(Objects()))
      ensures (View(), pass) == APIStage(config, old(View()), r, now)
    {
      if !config.enabled || r.path !in config.api {
        return true;
      }
      hide AfterAllow, Admits;
      var name := ApiName(r.verb, r.path);
      var l := GetOrCreateAPILimiter(name, config.api[r.path]);
      ghost var found := View();
      pass := l.Allow(ApiKey(r), now);
      assert View().limiters == found.limiters[name := Snapshot(l)];
    }

    /** The four stages in the order the router installs them; the first that rejects aborts. */
    method Serve(r: Request, times: seq<int>) returns (passed: nat)
      requires Valid() && |times| == 4
      modifies this`limiters, Objects()
      ensures Valid() && fresh(Objects() - old(Objects()))
      ensures (View(), passed) == Through(config, old(View()), r, times, 0)
    {
      hide GlobalStage, IPStage, UserStage, APIStage, View;
      ghost var c0 := View();
      var pass := GlobalRateLimit(times[0]);
      ghost var c1 := View();
      if !pass {
        return 0;
      }
      pass := IPRateLimit(r, times[1]);
      ghost var c2 := View();
      assert Through(config, c0, r, times, 0) == Through(config, c1, r, times, 1);
      if !pass {
        return 1;
      }
      pass := UserRateLimit(r, times[2]);
      ghost var c3 := View();
      assert Through(config, c1, r, times, 1) == Through(config, c2, r, times, 2);
      if !pass {
        return 2;
      }
      pass := APIRateLimit(r, times[3]);
      assert Through(config, c2, r, times, 2) == Through(config, c3, r, times, 3);
      if !pass {
        return 3;
      }
      assert Through(config, View(), r, times, 4) == (View(), 4);
      return 4;
    }

    method ResetRateLimit(key: string)
      requires Valid()
      modifies Objects()
      ensures Valid() && unchanged(this)
      ensures View() == LimiterChain.ResetRateLimit(old(View()), key)
    {
      if key in limiters {
        limiters[key].Reset(key);
      }
      if globalLimiter != null {
        globalLimiter.Reset("global");
      }
    }
  }
}
