# Event groups

A model of the event-group primitive declared in
`external/esp32_wifi_adapter/include/event_groups.h` (the FreeRTOS event group
API of the ESP32 Wi-Fi adapter). An event group is a word of event bits plus the
tasks blocked waiting for some of those bits. The header holds only prototypes
and their doc comments. The contracts below state what those comments promise.

Two modules:

- `EventBits` (`event_bits.dfy`): the `EventBits_t` word as a `bv32`.
  - The usable width follows the `configUSE_16_BIT_TICKS` setting: 8 usable bits
    with 16-bit ticks, 24 with 32-bit ticks.
  - `BitSet(x)` is the set of indices of the bits set in `x`.
  - On that view, setting bits is union, clearing bits is difference, and the
    ANY/ALL wait test is "some bit of the mask is set" or "every bit of the mask
    is set".
- `EventGroups` (`event_groups.dfy`): the class `EventGroup`, which a handle
  refers to. It holds the bit word, the blocked tasks in registration order, and
  an alive flag. Each operation is one method that changes the group in place.
  - A call of `xEventGroupWaitBits` that blocks registers a `Waiter` record with
    its call's arguments.
  - A task leaving the Blocked state is a `Wakeup` record, returned by the
    operation that released it. The record carries the value the task's wait
    call returns.
  - Expiry of a block time is the explicit step `Timeout`. A zero block time
    means "test and return at once".
  - The release pass of `xEventGroupSetBits` is the loop `ReleaseScan`.
    It goes over the waiters in order, releases those whose condition holds of
    the union, keeps the others, and accumulates the bits of the released
    clear-on-exit waiters into one clear mask.
  - That loop is proved against the specification functions `Released`,
    `StillBlocked` and `ClearMask`. The properties of those functions are proved
    as lemmas.

The group invariant `Valid` says five things. The usable bits are those of the
group's tick setting. Only usable bits are set or waited for. No blocked task's
condition holds of the current value. A task is blocked at most once. A deleted
group has no blocked task. Every operation keeps the invariant. Every operation
requires a live group, because the header asks for a group previously created
by `xEventGroupCreate`. The masks passed in must lie within the usable bits.

## Model

| member | source | states |
|---|---|---|
| EventBits.UsableBitCount | external/esp32_wifi_adapter/include/event_groups.h:93-98 | 8 usable bits with 16-bit ticks and 24 with 32-bit ticks, always fewer than the word width |
| EventBits.UsableMaskBits | external/esp32_wifi_adapter/include/event_groups.h:93-98 | the usable mask has bit k set exactly when k is below the usable bit count |
| EventBits.UsableMeaning | external/esp32_wifi_adapter/include/event_groups.h:71-99 | a word is usable exactly when every index of its set bits is below the usable count (bits 0 to 7, or 0 to 23) |
| EventBits.SatisfiedMeaning | external/esp32_wifi_adapter/include/event_groups.h:154-159 | the wait test holds exactly when every bit of the mask is set (wait for all) or some bit of the mask is set (wait for any) |
| EventBits.OrBitSet | external/esp32_wifi_adapter/include/event_groups.h:278-280 | setting bits makes the group's bit indices the union of the old ones and the ones set |
| EventBits.AndNotBitSet | external/esp32_wifi_adapter/include/event_groups.h:222-224 | clearing bits removes exactly the cleared indices from the group's bit indices |
| EventBits.BitSetInjective | external/esp32_wifi_adapter/include/event_groups.h:72-78 | two words are equal exactly when they set the same bit indices |
| EventBits.SatisfiedMonotone | external/esp32_wifi_adapter/include/event_groups.h:147-159 | a wait test that holds of a value also holds of every value with more bits set, so clearing bits can never satisfy a waiter |
| EventGroups.ReleasedMembers | external/esp32_wifi_adapter/include/event_groups.h:165-172 | set-bits releases exactly the waiters whose condition holds after the union, each with the value before clear-on-exit clearing |
| EventGroups.StillBlockedMembers | external/esp32_wifi_adapter/include/event_groups.h:273-274 | set-bits leaves blocked exactly the waiters whose condition fails after the union |
| EventGroups.ScanPartitions | external/esp32_wifi_adapter/include/event_groups.h:273-274 | with one waiter per task, every waiter is either released (its task woken with the union) or kept by set-bits, never both and never neither, and the two lists together have one entry per waiter |
| EventGroups.ClearMaskBits | external/esp32_wifi_adapter/include/event_groups.h:284-287 | a bit is cleared after set-bits exactly when a released clear-on-exit waiter waited for it |
| EventGroups.SetThenClearBits | external/esp32_wifi_adapter/include/event_groups.h:282-287 | on bit indices, the value after set-bits is the old value plus the bits set, less the clear mask |
| EventGroups.SetBitsBound | external/esp32_wifi_adapter/include/event_groups.h:282-287 | the value set-bits returns holds no bit outside the old value and the bits set |
| EventGroups.SetBitsLostBits | external/esp32_wifi_adapter/include/event_groups.h:282-287 | a requested bit is missing from the set-bits result only if a released clear-on-exit waiter waited for it |
| EventGroups.TimedOutMeaning | external/esp32_wifi_adapter/include/event_groups.h:165-168 | on timeout, not all waited-for bits are set in the value returned (for a non-empty mask), and none of them is set when waiting for any |
| EventGroups.ReleaseScan | external/esp32_wifi_adapter/include/event_groups.h:273-287 | one pass over the waiters returns the released wakeups, the kept waiters and the accumulated clear mask, equal to Released, StillBlocked and ClearMask |
| EventGroups.SetStep | external/esp32_wifi_adapter/include/event_groups.h:268-287 | set-bits on values: the release pass over the union, then one clear of the clear mask; the result is SetValue |
| EventGroups.ClearKeepsConsistent | external/esp32_wifi_adapter/include/event_groups.h:216-226 | clearing bits keeps the group invariant, so it releases no blocked task |
| EventGroups.BlockKeepsConsistent | external/esp32_wifi_adapter/include/event_groups.h:132-134 | a task whose condition fails may block without breaking the group invariant |
| EventGroups.RemoveKeepsConsistent | external/esp32_wifi_adapter/include/event_groups.h:161-163 | removing the waiter of an expired task keeps the invariant, and that task is no longer blocked |
| EventGroups.SetKeepsConsistent | external/esp32_wifi_adapter/include/event_groups.h:273-274 | after set-bits no kept waiter's condition holds of the new value, and the value stays within the usable bits |
| EventGroups.SetValueConsistent | external/esp32_wifi_adapter/include/event_groups.h:273-287 | the value and waiters set-bits leaves satisfy the group invariant |
| EventGroups.EventGroup.constructor | external/esp32_wifi_adapter/include/event_groups.h:80-103 | a new group has all bits clear, no blocked task, the usable mask of its tick setting, and is alive |
| EventGroups.EventGroup.WaitBits | external/esp32_wifi_adapter/include/event_groups.h:132-172 | if the condition holds, returns the value before clearing and then clears the mask when clear-on-exit is set; if not and the block time is 0, returns the value and changes nothing; otherwise the task blocks |
| EventGroups.EventGroup.Block | external/esp32_wifi_adapter/include/event_groups.h:132-134 | the task is registered after every task already blocked, and the bits are unchanged |
| EventGroups.EventGroup.Timeout | external/esp32_wifi_adapter/include/event_groups.h:147-168 | on expiry the task leaves the Blocked state with the current value, whose condition fails, and nothing is cleared |
| EventGroups.EventGroup.ClearBits | external/esp32_wifi_adapter/include/event_groups.h:216-226 | returns the value before clearing; afterwards the value is the old value less the mask, and the waiters are unchanged |
| EventGroups.EventGroup.SetBits | external/esp32_wifi_adapter/include/event_groups.h:268-287 | releases exactly the waiters satisfied by the union, each with the pre-clear value, keeps the rest, and returns and stores the union less the released clear-on-exit bits |
| EventGroups.EventGroup.Delete | external/esp32_wifi_adapter/include/event_groups.h:338-346 | every blocked task is released with value 0, in order; no waiter remains and the group is no longer alive |
| EventGroups.Create | external/esp32_wifi_adapter/include/event_groups.h:101-127 | returns null exactly when the heap cannot supply the group, otherwise a fresh group with all bits clear |

## Left out

- `os/include/tinyara/ledc.h`: not part of this model. It holds LED-controller driver declarations (ioctl codes, structs, an operations table, device registration) and no event-group computation.
- Priority preemption: a higher-priority task that runs before `xEventGroupSetBits` returns may change the value (event_groups.h:288-290). The model treats set-bits as atomic.
- Timing and concurrency: critical sections, tick counting and preemption are out. A block-time expiry is the explicit `Timeout` step, and the block time only matters as zero or not zero.
- `xEventGroupSetBitsFromISR`, the rendezvous (sync) call and `xEventGroupCreateStatic` are mentioned in the header but not declared there, so they are not modelled.
- The heap allocator: whether `xEventGroupCreate` can obtain memory is the parameter `heapAvailable` of `Create`.
- The 16-bit `EventBits_t` of the 16-bit tick setting is held in a `bv32`. Only the 8 usable bits can ever be set, so the high bits never differ.
- `TickType_t` and `BaseType_t` come from `esp_define.h`, which is not part of this model. Booleans stand for `pdTRUE`/`pdFALSE`, and a `nat` stands for the tick count.
- The handle itself and freeing the group's memory on delete are not modelled. After `Delete` the group is only marked not alive.
- A task can block on a group at most once, because a blocked task cannot make another call. `WaitBits` therefore requires that the calling task is not already blocked.
- EventGroups.TimedOutMeaning: the "not all waited-for bits are set" half is stated for a non-empty mask only, because an empty mask has every one of its bits set.
