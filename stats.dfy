/**
 The rolling message-volume statistic: 24 one-hour buckets covering the day
 before `now`, each keyed by the `HH:MM` (UTC) of its start and holding the
 number of messages created inside it.
 */
module VolumeStats {
  import opened Chat

  function Digit(d: nat): char
    requires d < 10
  {
    ('0' as int + d) as char
  }

  /** A zero-padded two-digit decimal, as `%H` and `%M` print. */
  function TwoDigits(n: nat): (s: string)
    requires n < 100
    ensures |s| == 2
    ensures '0' <= s[0] <= '9' && '0' <= s[1] <= '9'
    ensures 10 * (s[0] as int - '0' as int) + (s[1] as int - '0' as int) == n
  {
    [Digit(n / 10), Digit(n % 10)]
  }

  /** The hour of the day (UTC) of `t`. */
  function HourOfDay(t: Timestamp): nat
  {
    (t / OneHour) % 24
  }

  /** The minute of the hour of `t`. */
  function MinuteOfHour(t: Timestamp): nat
  {
    (t / 60) % 60
  }

  /** `strftime("%H:%M")` of `t`. */
  function HourMinute(t: Timestamp): (s: string)
    ensures |s| == 5 && s[2] == ':'
  {
    TwoDigits(HourOfDay(t)) + ":" + TwoDigits(MinuteOfHour(t))
  }

  /** The first two characters of the label are the hour, the last two the
      minute. */
  lemma HourMinuteParts(t: Timestamp)
    ensures HourMinute(t)[..2] == TwoDigits(HourOfDay(t))
    ensures HourMinute(t)[3..] == TwoDigits(MinuteOfHour(t))
  {
  }

  /** The number of one-hour buckets the statistic reports. */
  const Buckets: nat := 24

  /** The start of bucket `i`: `i` hours after 24 hours before `now`. */
  function BucketStart(now: Timestamp, i: int): Timestamp
  {
    now - OneDay + i * OneHour
  }

  /** The messages created in the half-open interval [lo, hi). */
  function CreatedIn(msgs: map<MessageId, Message>, lo: Timestamp, hi: Timestamp): set<MessageId>
  {
    set id | id in msgs && lo <= msgs[id].creationTimestamp < hi
  }

  function CountIn(msgs: map<MessageId, Message>, lo: Timestamp, hi: Timestamp): nat
  {
    |CreatedIn(msgs, lo, hi)|
  }

  /** Two different two-digit numbers print differently. */
  lemma TwoDigitsInjective(a: nat, b: nat)
    requires a < 100 && b < 100 && TwoDigits(a) == TwoDigits(b)
    ensures a == b
  {
  }

  /** Moving `i` whole hours on moves the hour count by `i`. */
  lemma HoursShift(t: Timestamp, i: int)
    ensures (t + i * OneHour) / OneHour == t / OneHour + i
  {
  }

  /** The 24 bucket labels of one call are pairwise different. */
  lemma BucketLabelsDistinct(now: Timestamp, i: int, j: int)
    requires 0 <= i < 24 && 0 <= j < 24 && i != j
    ensures HourMinute(BucketStart(now, i)) != HourMinute(BucketStart(now, j))
  {
    var start := now - OneDay;
    HoursShift(start, i);
    HoursShift(start, j);
    var q := start / OneHour;
    assert HourOfDay(BucketStart(now, i)) == (q + i) % 24;
    assert HourOfDay(BucketStart(now, j)) == (q + j) % 24;
    assert (q + i) % 24 != (q + j) % 24;
    var si, sj := HourMinute(BucketStart(now, i)), HourMinute(BucketStart(now, j));
    HourMinuteParts(BucketStart(now, i));
    HourMinuteParts(BucketStart(now, j));
    if si == sj {
      assert si[..2] == sj[..2];
      TwoDigitsInjective(HourOfDay(BucketStart(now, i)), HourOfDay(BucketStart(now, j)));
    }
  }

  /** Counting over two adjacent intervals counts their union. */
  lemma CountSplit(msgs: map<MessageId, Message>, lo: Timestamp, mid: Timestamp, hi: Timestamp)
    requires lo <= mid <= hi
    ensures CountIn(msgs, lo, hi) == CountIn(msgs, lo, mid) + CountIn(msgs, mid, hi)
  {
    var a, b := CreatedIn(msgs, lo, mid), CreatedIn(msgs, mid, hi);
    assert CreatedIn(msgs, lo, hi) == a + b;
    assert a * b == {};
  }

  /** The sum of the first `k` hourly bucket counts starting at `start`. */
  function BucketTotal(msgs: map<MessageId, Message>, start: Timestamp, k: nat): nat
  {
    if k == 0 then 0
    else BucketTotal(msgs, start, k - 1) + CountIn(msgs, start + (k - 1) * OneHour, start + k * OneHour)
  }

  /** The hourly buckets partition their window: their counts add up to the
      number of messages created in the whole window. */
  lemma {:induction false} BucketsPartitionWindow(msgs: map<MessageId, Message>, start: Timestamp, k: nat)
    ensures BucketTotal(msgs, start, k) == CountIn(msgs, start, start + k * OneHour)
  {
    if k == 0 {
      assert CreatedIn(msgs, start, start) == {};
    } else {
      BucketsPartitionWindow(msgs, start, k - 1);
      CountSplit(msgs, start, start + (k - 1) * OneHour, start + k * OneHour);
    }
  }

  /** The sum of the values `data` holds under the labels of the first `k`
      buckets before `now`. */
  function LabelledTotal(data: map<string, nat>, now: Timestamp, k: nat): nat
  {
    if k == 0 then 0
    else
      var key := HourMinute(BucketStart(now, k - 1));
      LabelledTotal(data, now, k - 1) + (if key in data then data[key] else 0)
  }

  /** The statistic holds, under each bucket's label, that bucket's count. */
  ghost predicate HoldsBucketCounts(msgs: map<MessageId, Message>, now: Timestamp, data: map<string, nat>, k: nat)
  {
    forall i :: 0 <= i < k ==>
      HourMinute(BucketStart(now, i)) in data &&
      data[HourMinute(BucketStart(now, i))] == CountIn(msgs, BucketStart(now, i), BucketStart(now, i + 1))
  }

  lemma {:induction false} LabelledTotalIsBucketTotal(msgs: map<MessageId, Message>, now: Timestamp, data: map<string, nat>, k: nat)
    requires HoldsBucketCounts(msgs, now, data, k)
    ensures LabelledTotal(data, now, k) == BucketTotal(msgs, now - OneDay, k)
  {
    if k > 0 {
      LabelledTotalIsBucketTotal(msgs, now, data, k - 1);
      assert BucketStart(now, k - 1) == now - OneDay + (k - 1) * OneHour;
      assert BucketStart(now, k) == now - OneDay + k * OneHour;
    }
  }

  /** Bucket counts held under the 24 labels add up to the number of
      messages created in the day before `now`. */
  lemma WindowTotal(msgs: map<MessageId, Message>, now: Timestamp, data: map<string, nat>)
    requires HoldsBucketCounts(msgs, now, data, Buckets)
    ensures LabelledTotal(data, now, Buckets) == CountIn(msgs, now - OneDay, now)
  {
    LabelledTotalIsBucketTotal(msgs, now, data, Buckets);
    BucketsPartitionWindow(msgs, now - OneDay, Buckets);
  }

  /** The labels of the first `n` buckets before `now`. */
  function BucketLabels(now: Timestamp, n: nat): set<string>
  {
    if n == 0 then {} else BucketLabels(now, n - 1) + {HourMinute(BucketStart(now, n - 1))}
  }

  /** The labels of the first `n` buckets are exactly the `HH:MM` of their
      start times. */
  lemma {:induction false} BucketLabelsAre(now: Timestamp, n: nat, key: string)
    ensures key in BucketLabels(now, n) <==> exists k :: 0 <= k < n && key == HourMinute(BucketStart(now, k))
  {
    if n > 0 {
      BucketLabelsAre(now, n - 1, key);
      if key == HourMinute(BucketStart(now, n - 1)) {
        assert 0 <= n - 1 < n;
      }
    }
  }

  /** Bucket `i`'s label is not among the labels of the buckets before it. */
  lemma {:induction false} LabelIsNew(now: Timestamp, i: nat, n: nat)
    requires n <= i < Buckets
    ensures HourMinute(BucketStart(now, i)) !in BucketLabels(now, n)
  {
    if n > 0 {
      LabelIsNew(now, i, n - 1);
      BucketLabelsDistinct(now, n - 1, i);
    }
  }

  /** One turn of the statistic's loop adds a label not yet present and
      keeps every earlier bucket's count. */
  lemma AddBucket(msgs: map<MessageId, Message>, now: Timestamp, data: map<string, nat>, i: nat)
    requires i < Buckets
    requires data.Keys == BucketLabels(now, i)
    requires HoldsBucketCounts(msgs, now, data, i)
    ensures var key := HourMinute(BucketStart(now, i));
      var data' := data[key := CountIn(msgs, BucketStart(now, i), BucketStart(now, i + 1))];
      && key !in data
      && data'.Keys == BucketLabels(now, i + 1)
      && HoldsBucketCounts(msgs, now, data', i + 1)
  {
    LabelIsNew(now, i, i);
  }

  /** `Message.get_message_volume_stats` at `now`: exactly 24 distinct `HH:MM`
      keys, bucket `i` holding the number of messages created in
      [now - 24h + i h, now - 24h + (i + 1) h), and the counts adding up to
      the messages created in [now - 24h, now). `order` is the order in which
      the keys were inserted, which is the order the returned dictionary
      iterates in: bucket by bucket, oldest first. */
  method GetMessageVolumeStats(msgs: map<MessageId, Message>, now: Timestamp) returns (data: map<string, nat>, order: seq<string>)
    ensures |data| == Buckets
    ensures data.Keys == BucketLabels(now, Buckets)
    ensures HoldsBucketCounts(msgs, now, data, Buckets)
    ensures LabelledTotal(data, now, Buckets) == CountIn(msgs, now - OneDay, now)
    ensures |order| == Buckets
    ensures forall i :: 0 <= i < |order| ==> order[i] == HourMinute(BucketStart(now, i))
    ensures forall i, j :: 0 <= i < j < |order| ==> order[i] != order[j]
  {
    data, order := map[], [];
    for i := 0 to Buckets
      invariant |data| == i
      invariant data.Keys == BucketLabels(now, i)
      invariant HoldsBucketCounts(msgs, now, data, i)
      invariant |order| == i
      invariant forall k :: 0 <= k < i ==> order[k] == HourMinute(BucketStart(now, k))
    {
      var period := BucketStart(now, i);
      AddBucket(msgs, now, data, i);
      data := data[HourMinute(period) := CountIn(msgs, period, BucketStart(now, i + 1))];
      order := order + [HourMinute(period)];
    }
    WindowTotal(msgs, now, data);
    forall i, j | 0 <= i < j < |order|
      ensures order[i] != order[j]
    {
      BucketLabelsDistinct(now, i, j);
    }
  }
}
