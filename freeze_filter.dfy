/**
 * The filter instance as the host sees it: one object whose fields are
 * those of `struct freeze_info`, updated in place by the host's callbacks.
 * Every method is proved to move the object's abstract value exactly as
 * the matching transition of FreezeSpec prescribes.
 */
module FreezeFilter {
  import Wrappers
  import S = FreezeSpec

  class FreezeInfo {
    /** The host's enable flag of this filter (`obs_source_enabled`). */
    var enabled: bool
    /** The capture buffer is allocated (`render != NULL`). */
    var hasRender: bool
    var cx: nat
    var cy: nat
    var targetValid: bool
    var processedFrame: bool
    var duration: real
    var durationMax: nat
    var refreshInterval: nat
    var lastRefresh: real
    var activateAction: S.Action
    var deactivateAction: S.Action
    var showAction: S.Action
    var hideAction: S.Action

    /** The object's fields as a value. */
    function Model(): S.State
      reads this
    {
      S.State(enabled, hasRender, cx, cy, targetValid, processedFrame, duration, lastRefresh,
              S.Config(durationMax, refreshInterval, activateAction, deactivateAction, showAction, hideAction))
    }

    ghost predicate Valid()
      reads this
    {
      S.Valid(Model())
    }

    /** Zero-filled allocation followed by the first settings update. */
    constructor (settings: S.Settings, hostEnabled: bool)
      ensures Valid()
      ensures Model() == S.Create(settings, hostEnabled)
    {
      enabled := hostEnabled;
      hasRender := false;
      cx, cy := 0, 0;
      targetValid := false;
      processedFrame := false;
      duration := 0.0;
      durationMax, refreshInterval := 0, 0;
      lastRefresh := 0.0;
      activateAction, deactivateAction, showAction, hideAction := S.None, S.None, S.None, S.None;
      new;
      Update(settings);
    }

    /** Reads the durations and the four hook actions from the settings. */
    method Update(settings: S.Settings)
      requires Valid()
      modifies this
      ensures Valid()
      ensures Model() == S.ApplySettings(old(Model()), settings)
    {
      durationMax := settings.duration % S.U32_LIMIT;
      refreshInterval := settings.refreshInterval % S.U32_LIMIT;
      activateAction := settings.activateAction;
      deactivateAction := settings.deactivateAction;
      showAction := settings.showAction;
      hideAction := settings.hideAction;
    }

    /** Releases the capture buffer, if there is one. */
    method FreeTextures()
      requires Valid()
      modifies this
      ensures Valid()
      ensures Model() == S.FreeTextures(old(Model()))
      ensures !hasRender
    {
      if !hasRender {
        return;
      }
      hasRender := false;
    }

    /**
     * Compares the upstream target's size against the stored one; true
     * when the target is unusable or its size changed.
     */
    method CheckSize(target: Wrappers.Option<S.Size>) returns (changed: bool)
      requires Valid()
      modifies this
      ensures Valid()
      ensures (Model(), changed) == S.CheckSize(old(Model()), target)
    {
      targetValid := target.Some?;
      if !targetValid {
        return true;
      }
      var (w, h) := target.value;
      targetValid := w != 0 && h != 0;
      if !targetValid {
        return true;
      }
      if w != cx || h != cy {
        cx := w;
        cy := h;
        FreeTextures();
        return true;
      }
      return false;
    }

    /**
     * The render callback.  `targetPresent` and `parentPresent` are the
     * host's answers for the filter's target and parent, `beginOk` its
     * answer to beginning the off-screen pass.
     */
    method VideoRender(targetPresent: bool, parentPresent: bool, beginOk: bool) returns (outcome: S.RenderOutcome)
      requires Valid()
      modifies this
      ensures Valid()
      ensures (Model(), outcome) == S.Render(old(Model()), targetPresent, parentPresent, beginOk)
    {
      if !targetValid || !targetPresent || !parentPresent {
        return S.Skip;
      }
      if processedFrame {
        return S.Replay(hasRender);
      }
      if !hasRender {
        hasRender := true;
      }
      // the buffer is reset when it already exists; the pass into it is the host's
      outcome := S.Capture(beginOk);
      processedFrame := true;
    }

    /** The tick callback: the timers for `t` seconds, then the geometry check. */
    method VideoTick(t: real, target: Wrappers.Option<S.Size>)
      requires Valid() && t >= 0.0
      modifies this
      ensures Valid()
      ensures Model() == S.Tick(old(Model()), t, target)
    {
      if enabled {
        duration := duration + t;
        if durationMax != 0 && duration * 1000.0 > durationMax as real {
          enabled := false;
        } else if refreshInterval != 0 && duration > lastRefresh
                  && (duration - lastRefresh) * 1000.0 >= refreshInterval as real {
          processedFrame := false;
          lastRefresh := duration;
        }
      } else {
        processedFrame := false;
        duration := 0.0;
        lastRefresh := 0.0;
      }
      var _ := CheckSize(target);
    }

    /** Enables or disables the filter when the action asks for a change. */
    method DoAction(action: S.Action)
      requires Valid()
      modifies this
      ensures Valid()
      ensures Model() == S.DoAction(old(Model()), action)
    {
      if action == S.Enable && !enabled {
        enabled := true;
      } else if action == S.Disable && enabled {
        enabled := false;
      }
    }

    method Activate()
      requires Valid()
      modifies this
      ensures Valid()
      ensures Model() == S.OnHook(old(Model()), S.Activate)
    {
      DoAction(activateAction);
    }

    method Deactivate()
      requires Valid()
      modifies this
      ensures Valid()
      ensures Model() == S.OnHook(old(Model()), S.Deactivate)
    {
      DoAction(deactivateAction);
    }

    method Show()
      requires Valid()
      modifies this
      ensures Valid()
      ensures Model() == S.OnHook(old(Model()), S.Show)
    {
      DoAction(showAction);
    }

    method Hide()
      requires Valid()
      modifies this
      ensures Valid()
      ensures Model() == S.OnHook(old(Model()), S.Hide)
    {
      DoAction(hideAction);
    }

    /** The enable hotkey; true when it was handled. */
    method EnableHotkey(pressed: bool) returns (handled: bool)
      requires Valid()
      modifies this
      ensures Valid()
      ensures (Model(), handled) == S.EnableHotkey(old(Model()), pressed)
    {
      if !pressed {
        return false;
      }
      if enabled {
        return false;
      }
      enabled := true;
      return true;
    }

    /** The disable hotkey; true when it was handled. */
    method DisableHotkey(pressed: bool) returns (handled: bool)
      requires Valid()
      modifies this
      ensures Valid()
      ensures (Model(), handled) == S.DisableHotkey(old(Model()), pressed)
    {
      if !pressed {
        return false;
      }
      if !enabled {
        return false;
      }
      enabled := false;
      return true;
    }
  }
}
